/** The groups table as a graph of parents. Nothing stops a group from being made its own ancestor (groups::update
    checks no cycles, src-tauri/src/data/groups.rs:37-51), so what is reachable from the root has to be said. */
module GroupForest {
  import opened Wrappers

  type Id = nat
  datatype Group = Group(id: Id, parentId: Option<Id>, name: string, sortOrder: int)

  ghost predicate UniqueIds(groups: seq<Group>) {
    forall i, j :: 0 <= i < j < |groups| ==> groups[i].id != groups[j].id
  }

  ghost predicate HasParent(groups: seq<Group>, id: Id, parent: Option<Id>) {
    exists g :: g in groups && g.id == id && g.parentId == parent
  }

  /** What precedes position k of a trail. */
  function Above(trail: seq<Id>, k: nat): Option<Id>
    requires k < |trail|
  {
    if k == 0 then None else Some(trail[k - 1])
  }

  ghost predicate LinkAt(groups: seq<Group>, trail: seq<Id>, k: nat)
    requires k < |trail|
  {
    HasParent(groups, trail[k], Above(trail, k))
  }

  /** A chain of groups from a root group down, each the parent of the next. */
  ghost predicate IsTrail(groups: seq<Group>, trail: seq<Id>) {
    && trail != []
    && forall k :: 0 <= k < |trail| ==> LinkAt(groups, trail, k)
  }

  ghost predicate Rooted(groups: seq<Group>, id: Id) {
    exists trail :: IsTrail(groups, trail) && trail[|trail| - 1] == id
  }

  /** The group's ancestors and itself, from the root down. */
  ghost function Trail(groups: seq<Group>, id: Id): (trail: seq<Id>)
    requires Rooted(groups, id)
    ensures IsTrail(groups, trail) && trail[|trail| - 1] == id
  {
    var trail :| IsTrail(groups, trail) && trail[|trail| - 1] == id;
    trail
  }

  lemma OneParent(groups: seq<Group>, id: Id, p: Option<Id>, q: Option<Id>)
    requires UniqueIds(groups) && HasParent(groups, id, p) && HasParent(groups, id, q)
    ensures p == q
  {
  }

  lemma TrailPrefix(groups: seq<Group>, trail: seq<Id>, n: nat)
    requires IsTrail(groups, trail) && 0 < n <= |trail|
    ensures IsTrail(groups, trail[..n])
  {
    forall k: nat | k < n ensures LinkAt(groups, trail[..n], k) {
      assert LinkAt(groups, trail, k);
    }
  }

  /** There is only one way from the root to a group. */
  lemma {:induction false} TrailIsUnique(groups: seq<Group>, s: seq<Id>, t: seq<Id>)
    requires UniqueIds(groups) && IsTrail(groups, s) && IsTrail(groups, t) && s[|s| - 1] == t[|t| - 1]
    ensures s == t
    decreases |s|
  {
    var m, n := |s| - 1, |t| - 1;
    assert LinkAt(groups, s, m) && LinkAt(groups, t, n);
    OneParent(groups, s[m], Above(s, m), Above(t, n));
    if m > 0 {
      TrailPrefix(groups, s, m);
      TrailPrefix(groups, t, n);
      TrailIsUnique(groups, s[..m], t[..n]);
    }
    assert s == s[..m] + [s[m]] && t == t[..n] + [t[n]];
  }

  lemma TrailHasNoRepeats(groups: seq<Group>, trail: seq<Id>, i: nat, j: nat)
    requires UniqueIds(groups) && IsTrail(groups, trail) && i < j < |trail|
    ensures trail[i] != trail[j]
  {
    if trail[i] == trail[j] {
      TrailPrefix(groups, trail, i + 1);
      TrailPrefix(groups, trail, j + 1);
      TrailIsUnique(groups, trail[..i + 1], trail[..j + 1]);
    }
  }

  ghost function TableIds(groups: seq<Group>): set<Id> { set g | g in groups :: g.id }

  ghost function Elements(ids: seq<Id>): set<Id> { set id | id in ids }

  lemma {:induction false} FewIds(groups: seq<Group>)
    ensures |TableIds(groups)| <= |groups|
  {
    if groups != [] {
      var last := |groups| - 1;
      FewIds(groups[..last]);
      assert TableIds(groups) == TableIds(groups[..last]) + {groups[last].id};
    }
  }

  lemma {:induction false} DistinctSize(ids: seq<Id>)
    requires NoRepeats(ids)
    ensures |Elements(ids)| == |ids|
  {
    if ids != [] {
      var last := |ids| - 1;
      DistinctSize(ids[..last]);
      assert Elements(ids) == Elements(ids[..last]) + {ids[last]};
    }
  }

  lemma SubsetSize<T>(a: set<T>, b: set<T>)
    requires a <= b
    ensures |a| <= |b|
  {
    assert b == a + (b - a);
  }

  /** However the parents are tangled, a trail is no longer than the table. */
  lemma TrailIsShort(groups: seq<Group>, trail: seq<Id>)
    requires UniqueIds(groups) && IsTrail(groups, trail)
    ensures |trail| <= |groups|
  {
    forall i, j | 0 <= i < j < |trail| ensures trail[i] != trail[j] { TrailHasNoRepeats(groups, trail, i, j); }
    DistinctSize(trail);
    FewIds(groups);
    var walked, all := Elements(trail), TableIds(groups);
    forall id | id in walked ensures id in all {
      var k :| 0 <= k < |trail| && trail[k] == id;
      assert LinkAt(groups, trail, k);
    }
    SubsetSize(walked, all);
  }

  /** A child of a rooted group, or of none, is rooted one step further down. */
  lemma ChildIsRooted(groups: seq<Group>, parent: Option<Id>, g: Group)
    requires UniqueIds(groups) && g in groups && g.parentId == parent
    requires parent.Some? ==> Rooted(groups, parent.value)
    ensures Rooted(groups, g.id)
    ensures Trail(groups, g.id) == (if parent.None? then [] else Trail(groups, parent.value)) + [g.id]
    ensures |Trail(groups, g.id)| <= |groups|
  {
    var above := if parent.None? then [] else Trail(groups, parent.value);
    var trail := above + [g.id];
    assert HasParent(groups, g.id, parent);
    forall k: nat | k < |trail| ensures LinkAt(groups, trail, k) {
      if k < |above| { assert LinkAt(groups, above, k); }
    }
    assert trail[|trail| - 1] == g.id;
    assert IsTrail(groups, trail);
    TrailIsUnique(groups, trail, Trail(groups, g.id));
    TrailIsShort(groups, trail);
  }

  /** Every group on a trail is rooted, by the part of the trail down to it. */
  lemma AncestorIsRooted(groups: seq<Group>, id: Id, k: nat)
    requires UniqueIds(groups) && Rooted(groups, id) && k < |Trail(groups, id)|
    ensures Rooted(groups, Trail(groups, id)[k])
    ensures Trail(groups, Trail(groups, id)[k]) == Trail(groups, id)[..k + 1]
  {
    var trail := Trail(groups, id);
    TrailPrefix(groups, trail, k + 1);
    assert trail[..k + 1][k] == trail[k];
    TrailIsUnique(groups, trail[..k + 1], Trail(groups, trail[k]));
  }
}
