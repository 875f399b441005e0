/** Group paths such as "Parent/Child" in the host CSV (src-tauri/src/data/host_csv.rs:38-54, 116-164): printing
    the path of a group, and resolving a path to a group, creating what is missing and remembering what was seen. */
module GroupPaths {
  import opened Wrappers
  import opened GroupForest
  import opened StableSort
  import opened Text

  const SLASH := '/'

  /** The groups table as `groups::list` returns it, by sort order, and the source of fresh ids. */
  datatype Forest = Forest(groups: seq<Group>, nextId: Id)

  ghost predicate IdsUsed(f: Forest) { forall g :: g in f.groups ==> g.id < f.nextId }

  ghost predicate ForestOk(f: Forest) { UniqueIds(f.groups) && IdsUsed(f) }

  /** No two groups of one parent share a name. */
  ghost predicate NoTwins(groups: seq<Group>) {
    forall i, j :: 0 <= i < j < |groups|
        ==> !(groups[i].parentId == groups[j].parentId && groups[i].name == groups[j].name)
  }

  ghost predicate SortedGroups(groups: seq<Group>) {
    forall i, j :: 0 <= i < j < |groups| ==> groups[i].sortOrder <= groups[j].sortOrder
  }

  // ---------------------------------------------------------------- looking up and creating one child

  /** The first child of `parent` with that name, in list order. */
  function FindChild(groups: seq<Group>, parent: Option<Id>, name: string): (id: Option<Id>)
    ensures id.Some? ==> exists g :: g in groups && g.id == id.value && g.parentId == parent && g.name == name
    ensures id.None? <==> forall g :: g in groups ==> !(g.parentId == parent && g.name == name)
  {
    if groups == [] then None
    else if groups[0].parentId == parent && groups[0].name == name then Some(groups[0].id)
    else FindChild(groups[1..], parent, name)
  }

  /** Of several such children the first in the list is found. */
  lemma {:induction false} FirstChild(groups: seq<Group>, parent: Option<Id>, name: string)
    ensures FindChild(groups, parent, name).Some? ==>
              exists k :: 0 <= k < |groups| && groups[k].id == FindChild(groups, parent, name).value
                          && groups[k].parentId == parent && groups[k].name == name
                          && forall m :: 0 <= m < k ==> !(groups[m].parentId == parent && groups[m].name == name)
  {
    if groups != [] && !(groups[0].parentId == parent && groups[0].name == name) {
      var rest := groups[1..];
      FirstChild(rest, parent, name);
      if FindChild(rest, parent, name).Some? {
        var k :| 0 <= k < |rest| && rest[k].id == FindChild(rest, parent, name).value
                 && rest[k].parentId == parent && rest[k].name == name
                 && forall m :: 0 <= m < k ==> !(rest[m].parentId == parent && rest[m].name == name);
        assert groups[k + 1] == rest[k];
        forall m | 0 <= m < k + 1 ensures !(groups[m].parentId == parent && groups[m].name == name) {
          if m > 0 { assert groups[m] == rest[m - 1]; }
        }
      }
    }
  }

  function BySortOrder(g: Group, h: Group): int { g.sortOrder - h.sortOrder }

  /** A new row is listed after every row whose sort order is not larger. */
  function Inserted(groups: seq<Group>, g: Group): seq<Group> { Insert(groups, g, BySortOrder) }

  /** `groups::create` with the input `resolve_group_path` gives it. */
  function WithGroup(f: Forest, parent: Option<Id>, name: string): Forest {
    Forest(Inserted(f.groups, Group(f.nextId, parent, name, 0)), f.nextId + 1)
  }

  lemma {:induction false} FindInParts(left: seq<Group>, right: seq<Group>, parent: Option<Id>, name: string)
    ensures FindChild(left + right, parent, name)
         == if FindChild(left, parent, name).Some? then FindChild(left, parent, name)
             else FindChild(right, parent, name)
  {
    if left == [] {
      assert left + right == right;
    } else {
      assert (left + right)[1..] == left[1..] + right;
      FindInParts(left[1..], right, parent, name);
    }
  }

  lemma FindAfterInsert(groups: seq<Group>, g: Group, parent: Option<Id>, name: string)
    requires FindChild(groups, g.parentId, g.name).None?
    ensures FindChild(Inserted(groups, g), parent, name)
         == if parent == g.parentId && name == g.name then Some(g.id) else FindChild(groups, parent, name)
  {
    var at := InsertPosition(groups, g, BySortOrder);
    var before, after := groups[..at], groups[at..];
    assert before + after == groups && before + [g] + after == before + ([g] + after);
    FindInParts(before, after, parent, name);
    FindInParts(before, [g] + after, parent, name);
    FindInParts([g], after, parent, name);
  }

  lemma InsertKeepsSorted(groups: seq<Group>, g: Group)
    requires SortedGroups(groups)
    ensures SortedGroups(Inserted(groups, g))
  {
    var all := (set h | h in groups) + {g};
    assert forall i, j :: 0 <= i < j < |groups| ==> BySortOrder(groups[i], groups[j]) <= 0;
    InsertSorts(groups, g, BySortOrder, all);
    var r := Inserted(groups, g);
    forall i, j | 0 <= i < j < |r| ensures r[i].sortOrder <= r[j].sortOrder {
      assert BySortOrder(r[i], r[j]) <= 0;
    }
  }

  lemma InsertKeepsForestOk(f: Forest, parent: Option<Id>, name: string)
    requires ForestOk(f)
    ensures ForestOk(WithGroup(f, parent, name))
  {
    var g := Group(f.nextId, parent, name, 0);
    var at := InsertPosition(f.groups, g, BySortOrder);
    forall k | 0 <= k < |f.groups| ensures f.groups[k].id < f.nextId {
      assert f.groups[k] in f.groups;
    }
  }

  lemma InsertKeepsNoTwins(groups: seq<Group>, g: Group)
    requires NoTwins(groups) && FindChild(groups, g.parentId, g.name).None?
    ensures NoTwins(Inserted(groups, g))
  {
    var at := InsertPosition(groups, g, BySortOrder);
    forall k | 0 <= k < |groups| ensures !(groups[k].parentId == g.parentId && groups[k].name == g.name) {
      assert groups[k] in groups;
    }
  }

  // ---------------------------------------------------------------- resolving without a cache

  /** One path segment below the group reached so far. */
  function Enter(f: Forest, parent: Option<Id>, name: string): (Forest, Option<Id>) {
    var found := FindChild(f.groups, parent, name);
    if found.Some? then (f, found) else (WithGroup(f, parent, name), Some(f.nextId))
  }

  function Resolve(f: Forest, segments: seq<string>): (r: (Forest, Option<Id>))
    ensures r.1.None? <==> segments == []
  {
    if segments == [] then (f, None)
    else
      var last := |segments| - 1;
      var (g, parent) := Resolve(f, segments[..last]);
      Enter(g, parent, segments[last])
  }

  /** The group a path of existing groups leads to. */
  function Walk(groups: seq<Group>, segments: seq<string>): Option<Id> {
    if segments == [] then None
    else
      var last := |segments| - 1;
      var parent := Walk(groups, segments[..last]);
      if last > 0 && parent.None? then None else FindChild(groups, parent, segments[last])
  }

  /** What an unnormalised path means: blanks around segments and empty segments do not count. */
  function Segments(path: string): seq<string> { Cells(Trim(path), SLASH) }

  function ResolvePath(f: Forest, path: string): (Forest, Option<Id>) { Resolve(f, Segments(path)) }

  ghost predicate Exists(groups: seq<Group>, segments: seq<string>) {
    segments == [] || Walk(groups, segments).Some?
  }

  /** Creating a missing group moves no existing path. */
  lemma {:induction false} InsertKeepsPaths(groups: seq<Group>, g: Group, segments: seq<string>)
    requires FindChild(groups, g.parentId, g.name).None? && Exists(groups, segments)
    ensures Walk(Inserted(groups, g), segments) == Walk(groups, segments)
  {
    if segments != [] {
      var last := |segments| - 1;
      InsertKeepsPaths(groups, g, segments[..last]);
      FindAfterInsert(groups, g, Walk(groups, segments[..last]), segments[last]);
    }
  }

  lemma {:induction false} ResolveKeepsPaths(f: Forest, segments: seq<string>, path: seq<string>)
    requires Exists(f.groups, path)
    ensures Walk(Resolve(f, segments).0.groups, path) == Walk(f.groups, path)
  {
    if segments != [] {
      var last := |segments| - 1;
      ResolveKeepsPaths(f, segments[..last], path);
      var (g, parent) := Resolve(f, segments[..last]);
      if FindChild(g.groups, parent, segments[last]).None? {
        InsertKeepsPaths(g.groups, Group(g.nextId, parent, segments[last], 0), path);
      }
    }
  }

  /** After resolving, the path exists and leads to the id returned. */
  lemma {:induction false} ResolvedPathExists(f: Forest, segments: seq<string>)
    ensures Walk(Resolve(f, segments).0.groups, segments) == Resolve(f, segments).1
  {
    if segments != [] {
      var last := |segments| - 1;
      var (g, parent) := Resolve(f, segments[..last]);
      ResolvedPathExists(f, segments[..last]);
      if FindChild(g.groups, parent, segments[last]).None? {
        var made := Group(g.nextId, parent, segments[last], 0);
        InsertKeepsPaths(g.groups, made, segments[..last]);
        FindAfterInsert(g.groups, made, parent, segments[last]);
      }
    }
  }

  /** Resolving a path that exists changes nothing. */
  lemma {:induction false} ExistingPathResolves(f: Forest, segments: seq<string>)
    requires Exists(f.groups, segments)
    ensures Resolve(f, segments) == (f, Walk(f.groups, segments))
  {
    if segments != [] {
      ExistingPathResolves(f, segments[..|segments| - 1]);
    }
  }

  /** Resolving twice is resolving once, and the second time nothing is created. */
  lemma ResolveIsIdempotent(f: Forest, path: string)
    ensures var (g, id) := ResolvePath(f, path); ResolvePath(g, path) == (g, id)
  {
    var (g, id) := ResolvePath(f, path);
    ResolvedPathExists(f, Segments(path));
    ExistingPathResolves(g, Segments(path));
  }

  /** Only additions, with ids not used before, and no second child of the same name. */
  ghost predicate Grown(f: Forest, g: Forest) {
    && ForestOk(g)
    && (forall h :: h in f.groups ==> h in g.groups)
    && (forall h :: h in g.groups && h !in f.groups ==> f.nextId <= h.id)
    && f.nextId <= g.nextId
    && (NoTwins(f.groups) ==> NoTwins(g.groups))
    && (SortedGroups(f.groups) ==> SortedGroups(g.groups))
  }

  lemma InsertGrows(f: Forest, parent: Option<Id>, name: string)
    requires ForestOk(f) && FindChild(f.groups, parent, name).None?
    ensures Grown(f, WithGroup(f, parent, name))
  {
    var made := Group(f.nextId, parent, name, 0);
    InsertKeepsForestOk(f, parent, name);
    if NoTwins(f.groups) { InsertKeepsNoTwins(f.groups, made); }
    if SortedGroups(f.groups) { InsertKeepsSorted(f.groups, made); }
    InsertMembers(f.groups, made, BySortOrder);
    forall h ensures h in Inserted(f.groups, made) <==> h in f.groups || h == made {
      assert h in Inserted(f.groups, made) <==> h in multiset(Inserted(f.groups, made));
      assert h in f.groups <==> h in multiset(f.groups);
    }
  }

  lemma {:induction false} ResolveGrowsForest(f: Forest, segments: seq<string>)
    requires ForestOk(f)
    ensures Grown(f, Resolve(f, segments).0)
  {
    if segments != [] {
      var last := |segments| - 1;
      ResolveGrowsForest(f, segments[..last]);
      var (g, parent) := Resolve(f, segments[..last]);
      if FindChild(g.groups, parent, segments[last]).None? {
        InsertGrows(g, parent, segments[last]);
      }
    }
  }

  /** The group stands on the path, below the groups before it, as new groups are made. */
  ghost predicate MadeFor(groups: seq<Group>, segments: seq<string>, g: Group) {
    exists n: nat ::
      n < |segments| && Walk(groups, segments[..n + 1]) == Some(g.id)
      && g == Group(g.id, Walk(groups, segments[..n]), segments[n], 0)
  }

  lemma MadeForStays(f: Forest, parent: Option<Id>, name: string, segments: seq<string>, g: Group)
    requires FindChild(f.groups, parent, name).None? && Exists(f.groups, segments) && MadeFor(f.groups, segments, g)
    ensures MadeFor(WithGroup(f, parent, name).groups, segments, g)
  {
    var n: nat :| n < |segments| && Walk(f.groups, segments[..n + 1]) == Some(g.id)
                  && g == Group(g.id, Walk(f.groups, segments[..n]), segments[n], 0);
    var made := Group(f.nextId, parent, name, 0);
    PrefixExists(f.groups, segments, n);
    InsertKeepsPaths(f.groups, made, segments[..n + 1]);
    InsertKeepsPaths(f.groups, made, segments[..n]);
  }

  lemma {:induction false} PrefixExists(groups: seq<Group>, segments: seq<string>, n: nat)
    requires Exists(groups, segments) && n <= |segments|
    ensures Exists(groups, segments[..n])
  {
    if n < |segments| {
      PrefixExists(groups, segments[..|segments| - 1], n);
      assert segments[..|segments| - 1][..n] == segments[..n];
    } else {
      assert segments[..n] == segments;
    }
  }

  /** The groups a path adds are the missing ones on it and no others. */
  lemma {:induction false} OnlyThePathIsMade(f: Forest, segments: seq<string>, g: Group)
    requires g in Resolve(f, segments).0.groups && g !in f.groups
    ensures MadeFor(Resolve(f, segments).0.groups, segments, g)
  {
    if segments != [] {
      var last := |segments| - 1;
      var front := segments[..last];
      var (before, parent) := Resolve(f, front);
      var after := Resolve(f, segments).0;
      ResolvedPathExists(f, front);
      ResolvedPathExists(f, segments);
      assert segments == front + [segments[last]];
      if g in before.groups {
        OnlyThePathIsMade(f, front, g);
        if FindChild(before.groups, parent, segments[last]).None? {
          MadeForStays(before, parent, segments[last], front, g);
        }
        LongerPath(after.groups, front, segments[last], g);
      } else {
        NewestIsMade(before, parent, segments[last], g);
        InsertKeepsPaths(before.groups, g, front);
        assert segments[..last + 1] == segments && segments[..last] == front;
      }
    }
  }

  lemma NewestIsMade(f: Forest, parent: Option<Id>, name: string, g: Group)
    requires g in Enter(f, parent, name).0.groups && g !in f.groups
    ensures FindChild(f.groups, parent, name).None? && g == Group(f.nextId, parent, name, 0)
  {
    InsertMembers(f.groups, Group(f.nextId, parent, name, 0), BySortOrder);
    assert g in multiset(Enter(f, parent, name).0.groups);
  }

  lemma LongerPath(groups: seq<Group>, front: seq<string>, last: string, g: Group)
    requires MadeFor(groups, front, g)
    ensures MadeFor(groups, front + [last], g)
  {
    var n: nat :| n < |front| && Walk(groups, front[..n + 1]) == Some(g.id)
                  && g == Group(g.id, Walk(groups, front[..n]), front[n], 0);
    PrefixOfLonger(front, last, n);
    PrefixOfLonger(front, last, n + 1);
    assert (front + [last])[n] == front[n];
  }

  lemma PrefixOfLonger(front: seq<string>, last: string, n: nat)
    requires n <= |front|
    ensures (front + [last])[..n] == front[..n]
  {
  }

  // ---------------------------------------------------------------- resolving with the cache

  type Cache = map<string, Id>

  /** A cache key is a normalised path that leads to the id stored. */
  ghost predicate EntryOk(groups: seq<Group>, path: string, id: Id) {
    && Cells(path, SLASH) != [] && Join(Cells(path, SLASH), SLASH) == path
    && Walk(groups, Cells(path, SLASH)) == Some(id)
  }

  ghost predicate CacheOk(groups: seq<Group>, cache: Cache) {
    forall path :: path in cache ==> EntryOk(groups, path, cache[path])
  }

  lemma InsertKeepsCache(groups: seq<Group>, g: Group, cache: Cache)
    requires CacheOk(groups, cache) && FindChild(groups, g.parentId, g.name).None?
    ensures CacheOk(Inserted(groups, g), cache)
  {
    forall path | path in cache ensures EntryOk(Inserted(groups, g), path, cache[path]) {
      assert EntryOk(groups, path, cache[path]);
      InsertKeepsPaths(groups, g, Cells(path, SLASH));
    }
  }

  /** One more segment: a cached prefix gives what looking the group up or creating it would have given. */
  lemma CachedTurn(f: Forest, done: seq<string>, segment: string, cache: Cache)
    requires CacheOk(Resolve(f, done).0.groups, cache) && AllClean(done + [segment], SLASH)
    ensures Join(done + [segment], SLASH) in cache ==>
              Resolve(f, done + [segment]) == (Resolve(f, done).0, Some(cache[Join(done + [segment], SLASH)]))
  {
    var next := done + [segment];
    if Join(next, SLASH) in cache {
      CellsOfJoin(next, SLASH);
      assert EntryOk(Resolve(f, done).0.groups, Join(next, SLASH), cache[Join(next, SLASH)]);
      assert next[..|next| - 1] == done;
      ResolvedPathExists(f, done);
    }
  }

  /** One more segment that no cached prefix covers: the cache may remember where it led. */
  lemma FreshTurn(f: Forest, done: seq<string>, segment: string, cache: Cache)
    requires CacheOk(Resolve(f, done).0.groups, cache) && AllClean(done + [segment], SLASH)
    ensures var (before, parent) := Resolve(f, done);
            var (after, id) := Enter(before, parent, segment);
            && Resolve(f, done + [segment]) == (after, id)
            && CacheOk(after.groups, cache[Join(done + [segment], SLASH) := id.value])
  {
    var next := done + [segment];
    var (before, parent) := Resolve(f, done);
    var (after, id) := Enter(before, parent, segment);
    assert next[..|next| - 1] == done;
    if FindChild(before.groups, parent, segment).None? {
      InsertKeepsCache(before.groups, Group(before.nextId, parent, segment, 0), cache);
    }
    ResolvedPathExists(f, next);
    CellsOfJoin(next, SLASH);
  }

  /** The early return: a trimmed path that is a cache key is already normalised and already there. */
  lemma CachedPath(f: Forest, cache: Cache, path: string)
    requires CacheOk(f.groups, cache)
    ensures Trim(path) in cache ==> ResolvePath(f, path) == (f, Some(cache[Trim(path)]))
  {
    if Trim(path) in cache {
      assert EntryOk(f.groups, Trim(path), cache[Trim(path)]);
      ExistingPathResolves(f, Segments(path));
    }
  }

  lemma BlankPath(f: Forest, path: string)
    requires Trim(path) == ""
    ensures ResolvePath(f, path) == (f, None)
  {
    CellsOfJoin([], SLASH);
  }

  /** The path built so far is empty before the first segment only. */
  lemma BuiltSoFar(done: seq<string>, segment: string)
    requires segment != ""
    ensures Join(done + [segment], SLASH) == if done == [] then segment else Join(done, SLASH) + [SLASH] + segment
    ensures Join(done + [segment], SLASH) != ""
  {
    if done != [] {
      JoinAppend(done, segment, SLASH);
    }
  }

  lemma TakeOneMore(segments: seq<string>, i: nat)
    requires i < |segments| && AllClean(segments, SLASH)
    ensures segments[..i + 1] == segments[..i] + [segments[i]]
    ensures AllClean(segments[..i] + [segments[i]], SLASH) && segments[i] != ""
  {
    assert Clean(segments[i], SLASH);
  }

  /** The loop of `resolve_group_path`, over the segments of a path that is not itself cached. */
  method ResolveSegments(f: Forest, segments: seq<string>, cache: Cache)
    returns (forest: Forest, parentId: Option<Id>, newCache: Cache)
    requires AllClean(segments, SLASH) && CacheOk(f.groups, cache)
    ensures (forest, parentId) == Resolve(f, segments)
    ensures CacheOk(forest.groups, newCache)
  {
    forest, parentId, newCache := f, None, cache;
    var built := "";
    ghost var done: seq<string> := [];
    for i := 0 to |segments|
      invariant done == segments[..i]
      invariant built == Join(done, SLASH) && (built == "" <==> done == [])
      invariant (forest, parentId) == Resolve(f, done)
      invariant CacheOk(forest.groups, newCache)
    {
      var segment := segments[i];
      TakeOneMore(segments, i);
      BuiltSoFar(done, segment);
      built := if built != "" then built + [SLASH] + segment else segment;
      if built in newCache {
        CachedTurn(f, done, segment, newCache);
        parentId := Some(newCache[built]);
      } else {
        FreshTurn(f, done, segment, newCache);
        var existing := FindChild(forest.groups, parentId, segment);
        var id := if existing.Some? then existing.value else forest.nextId;
        if existing.None? {
          forest := WithGroup(forest, parentId, segment);
        }
        newCache := newCache[built := id];
        parentId := Some(id);
      }
      done := done + [segment];
    }
    assert done == segments;
  }

  /** `resolve_group_path` agrees with resolving without a cache, whatever was cached, and keeps the cache right. */
  method ResolveGroupPath(f: Forest, path: string, cache: Cache)
    returns (forest: Forest, id: Option<Id>, newCache: Cache)
    requires CacheOk(f.groups, cache)
    ensures (forest, id) == ResolvePath(f, path)
    ensures CacheOk(forest.groups, newCache)
  {
    forest, id, newCache := f, None, cache;
    var trimmed := Trim(path);
    if trimmed == "" {
      BlankPath(f, path);
    } else if trimmed in cache {
      CachedPath(f, cache, path);
      id := Some(cache[trimmed]);
    } else {
      forest, id, newCache := ResolveSegments(f, Cells(trimmed, SLASH), cache);
    }
  }

  // ---------------------------------------------------------------- printing a group's path

  type Parents = map<Id, (string, Option<Id>)>

  /** The list of groups collected into a `HashMap`. */
  function ById(groups: seq<Group>): Parents {
    if groups == [] then map[]
    else
      var last := groups[|groups| - 1];
      ById(groups[..|groups| - 1])[last.id := (last.name, last.parentId)]
  }

  lemma {:induction false} ByIdHoldsTable(groups: seq<Group>)
    requires UniqueIds(groups)
    ensures |ById(groups)| == |groups|
    ensures forall g :: g in groups ==> g.id in ById(groups) && ById(groups)[g.id] == (g.name, g.parentId)
    ensures forall id :: id in ById(groups) ==> exists g :: g in groups && g.id == id
  {
    if groups != [] {
      var last := |groups| - 1;
      var before := groups[..last];
      ByIdHoldsTable(before);
      assert groups == before + [groups[last]];
      assert groups[last].id !in ById(before);
    }
  }

  /** Names from a group upwards, for at most `steps` groups. */
  function Climb(byId: Parents, current: Option<Id>, steps: nat): seq<string>
    decreases steps
  {
    if steps == 0 || current.None? || current.value !in byId then []
    else [byId[current.value].0] + Climb(byId, byId[current.value].1, steps - 1)
  }

  function Reversed<T>(s: seq<T>): seq<T> {
    if s == [] then [] else Reversed(s[1..]) + [s[0]]
  }

  method GroupPath(id: Id, byId: Parents) returns (path: string)
    ensures path == Join(Reversed(Climb(byId, Some(id), |byId| + 1)), SLASH)
  {
    var parts: seq<string> := [];
    var current := Some(id);
    var steps := |byId| + 1;
    while steps > 0 && current.Some? && current.value in byId
      invariant steps >= 0
      invariant parts + Climb(byId, current, steps) == Climb(byId, Some(id), |byId| + 1)
    {
      var (name, parentId) := byId[current.value];
      parts := parts + [name];
      current := parentId;
      steps := steps - 1;
    }
    assert parts + [] == parts;
    path := Join(Reversed(parts), SLASH);
  }

  /** The string `group_path` returns for a group of the table. */
  function PathOf(groups: seq<Group>, id: Id): string {
    Join(Reversed(Climb(ById(groups), Some(id), |ById(groups)| + 1)), SLASH)
  }

  function NameIn(byId: Parents, id: Id): string { if id in byId then byId[id].0 else "" }

  function PathNames(byId: Parents, trail: seq<Id>): (names: seq<string>)
    ensures |names| == |trail|
  {
    if trail == [] then []
    else PathNames(byId, trail[..|trail| - 1]) + [NameIn(byId, trail[|trail| - 1])]
  }

  /** Climbing from a rooted group meets exactly its trail, last group first. */
  lemma {:induction false} ClimbIsTrail(groups: seq<Group>, trail: seq<Id>, steps: nat)
    requires UniqueIds(groups) && IsTrail(groups, trail) && |trail| <= steps
    ensures Reversed(Climb(ById(groups), Some(trail[|trail| - 1]), steps)) == PathNames(ById(groups), trail)
    decreases |trail|
  {
    var byId, last := ById(groups), |trail| - 1;
    ByIdHoldsTable(groups);
    assert LinkAt(groups, trail, last);
    assert byId[trail[last]].1 == Above(trail, last);
    if last > 0 {
      TrailPrefix(groups, trail, last);
      ClimbIsTrail(groups, trail[..last], steps - 1);
    } else {
      assert Climb(byId, None, steps - 1) == [];
    }
    var above := Climb(byId, Above(trail, last), steps - 1);
    var climbed := Climb(byId, Some(trail[last]), steps);
    assert climbed == [NameIn(byId, trail[last])] + above && climbed[1..] == above;
  }

  /** Groups that a path of names can address: no loops, no two alike side by side, no name a path would mangle. */
  ghost predicate WellNamed(groups: seq<Group>) {
    && UniqueIds(groups) && NoTwins(groups)
    && forall g :: g in groups ==> Clean(g.name, SLASH) && Rooted(groups, g.id)
  }

  lemma OnlyChild(groups: seq<Group>, g: Group)
    requires NoTwins(groups) && g in groups
    ensures FindChild(groups, g.parentId, g.name) == Some(g.id)
  {
    var found := FindChild(groups, g.parentId, g.name);
    var h :| h in groups && h.id == found.value && h.parentId == g.parentId && h.name == g.name;
    var i :| 0 <= i < |groups| && groups[i] == g;
    var j :| 0 <= j < |groups| && groups[j] == h;
  }

  lemma LastOnTrail(groups: seq<Group>, trail: seq<Id>) returns (g: Group)
    requires UniqueIds(groups) && IsTrail(groups, trail)
    ensures g in groups && g.id == trail[|trail| - 1] && g.parentId == Above(trail, |trail| - 1)
    ensures NameIn(ById(groups), g.id) == g.name
  {
    ByIdHoldsTable(groups);
    assert LinkAt(groups, trail, |trail| - 1);
    g :| g in groups && g.id == trail[|trail| - 1] && g.parentId == Above(trail, |trail| - 1);
  }

  lemma {:induction false} TrailNamesClean(groups: seq<Group>, trail: seq<Id>)
    requires WellNamed(groups) && IsTrail(groups, trail)
    ensures AllClean(PathNames(ById(groups), trail), SLASH)
    decreases |trail|
  {
    var last := |trail| - 1;
    var g := LastOnTrail(groups, trail);
    if last > 0 {
      TrailPrefix(groups, trail, last);
      TrailNamesClean(groups, trail[..last]);
    }
  }

  lemma {:induction false} TrailWalks(groups: seq<Group>, trail: seq<Id>)
    requires WellNamed(groups) && IsTrail(groups, trail)
    ensures Walk(groups, PathNames(ById(groups), trail)) == Some(trail[|trail| - 1])
    decreases |trail|
  {
    var last := |trail| - 1;
    var g := LastOnTrail(groups, trail);
    OnlyChild(groups, g);
    var names, above := PathNames(ById(groups), trail), PathNames(ById(groups), trail[..last]);
    assert names == above + [g.name] && names[..last] == above;
    if last > 0 {
      TrailPrefix(groups, trail, last);
      TrailWalks(groups, trail[..last]);
    }
  }

  lemma PathIsTrailNames(groups: seq<Group>, id: Id)
    requires UniqueIds(groups) && Rooted(groups, id)
    ensures PathOf(groups, id) == Join(PathNames(ById(groups), Trail(groups, id)), SLASH)
  {
    ByIdHoldsTable(groups);
    TrailIsShort(groups, Trail(groups, id));
    ClimbIsTrail(groups, Trail(groups, id), |ById(groups)| + 1);
  }

  lemma SegmentsOfJoin(names: seq<string>)
    requires names != [] && AllClean(names, SLASH)
    ensures Segments(Join(names, SLASH)) == names
  {
    JoinIsTrimmed(names, SLASH);
    TrimLeavesTrimmed(Join(names, SLASH));
    CellsOfJoin(names, SLASH);
  }

  /** In a well-named forest the path printed for a group leads back to it, and nothing is created on the way. */
  lemma ResolveInvertsGroupPath(f: Forest, id: Id)
    requires WellNamed(f.groups) && exists g :: g in f.groups && g.id == id
    ensures ResolvePath(f, PathOf(f.groups, id)) == (f, Some(id))
  {
    var trail := Trail(f.groups, id);
    var names := PathNames(ById(f.groups), trail);
    PathIsTrailNames(f.groups, id);
    TrailNamesClean(f.groups, trail);
    TrailWalks(f.groups, trail);
    SegmentsOfJoin(names);
    ExistingPathResolves(f, names);
  }

  /** The groups' parents are groups, as the table's foreign key has it. */
  ghost predicate ParentsExist(groups: seq<Group>) {
    forall g :: g in groups && g.parentId.Some? ==> exists h :: h in groups && h.id == g.parentId.value
  }

  /** The cap on the climb is reached exactly by the groups that hang on a loop of parents. */
  lemma CapReachedIffUnrooted(groups: seq<Group>, g: Group)
    requires UniqueIds(groups) && ParentsExist(groups) && g in groups
    ensures |Climb(ById(groups), Some(g.id), |groups| + 1)| == |groups| + 1 <==> !Rooted(groups, g.id)
  {
    if Rooted(groups, g.id) {
      var trail := Trail(groups, g.id);
      TrailIsShort(groups, trail);
      ClimbIsTrail(groups, trail, |groups| + 1);
      ReversedLength(Climb(ById(groups), Some(g.id), |groups| + 1));
    } else {
      var chain := ClimbMeets(groups, g, |groups| + 1);
    }
  }

  lemma {:induction false} ReversedLength<T>(s: seq<T>)
    ensures |Reversed(s)| == |s|
  {
    if s != [] { ReversedLength(s[1..]); }
  }

  /** From a group on a loop, each the parent of the one before. */
  ghost predicate Upwards(groups: seq<Group>, chain: seq<Group>) {
    && (forall k :: 0 <= k < |chain| ==> chain[k] in groups)
    && forall k :: 0 <= k < |chain| - 1 ==> chain[k].parentId == Some(chain[k + 1].id)
  }

  function NamesOf(chain: seq<Group>): seq<string> {
    seq(|chain|, k requires 0 <= k < |chain| => chain[k].name)
  }

  lemma ParentOnLoop(groups: seq<Group>, g: Group) returns (parent: Group)
    requires UniqueIds(groups) && ParentsExist(groups) && g in groups && !Rooted(groups, g.id)
    ensures parent in groups && g.parentId == Some(parent.id) && !Rooted(groups, parent.id)
  {
    if g.parentId.None? { ChildIsRooted(groups, None, g); }
    parent :| parent in groups && parent.id == g.parentId.value;
    if Rooted(groups, parent.id) { ChildIsRooted(groups, g.parentId, g); }
  }

  lemma LongerChain(groups: seq<Group>, g: Group, rest: seq<Group>)
    requires g in groups && rest != [] && Upwards(groups, rest) && g.parentId == Some(rest[0].id)
    ensures Upwards(groups, [g] + rest) && NamesOf([g] + rest) == [g.name] + NamesOf(rest)
  {
  }

  lemma {:induction false} ClimbMeets(groups: seq<Group>, g: Group, steps: nat) returns (chain: seq<Group>)
    requires UniqueIds(groups) && ParentsExist(groups) && g in groups && !Rooted(groups, g.id) && steps > 0
    ensures |chain| == steps && chain[0] == g && Upwards(groups, chain)
    ensures Climb(ById(groups), Some(g.id), steps) == NamesOf(chain)
    decreases steps
  {
    ByIdHoldsTable(groups);
    if steps == 1 {
      chain := [g];
      assert Climb(ById(groups), g.parentId, 0) == [] && NamesOf(chain) == [g.name];
    } else {
      var parent := ParentOnLoop(groups, g);
      var rest := ClimbMeets(groups, parent, steps - 1);
      LongerChain(groups, g, rest);
      chain := [g] + rest;
    }
  }

  /** The path of a group on a loop goes round it until the cap: one name more than there are groups, its own last. */
  lemma LoopedPath(groups: seq<Group>, g: Group) returns (chain: seq<Group>)
    requires UniqueIds(groups) && ParentsExist(groups) && g in groups && !Rooted(groups, g.id)
    ensures |chain| == |groups| + 1 && chain[0] == g && Upwards(groups, chain)
    ensures PathOf(groups, g.id) == Join(Reversed(NamesOf(chain)), SLASH)
  {
    ByIdHoldsTable(groups);
    chain := ClimbMeets(groups, g, |groups| + 1);
  }
}
