/** Moving a group under another (src-tauri/src/data/groups.rs:37-51): no check keeps a group from becoming its own
    ancestor, and which updates make it one. */
module GroupUpdate {
  import opened Wrappers
  import opened GroupForest
  import opened GroupPaths

  /** `groups::update` rewrites the row with any parent it is given. */
  function Updated(groups: seq<Group>, id: Id, parentId: Option<Id>, name: string, sortOrder: int): (r: seq<Group>)
    ensures |r| == |groups|
    ensures forall k :: 0 <= k < |r| ==>
              r[k] == if groups[k].id == id then Group(id, parentId, name, sortOrder) else groups[k]
  {
    seq(|groups|, k requires 0 <= k < |groups| =>
      if groups[k].id == id then Group(id, parentId, name, sortOrder) else groups[k])
  }

  ghost predicate InTable(groups: seq<Group>, id: Id) { exists g :: g in groups && g.id == id }

  ghost predicate AllRooted(groups: seq<Group>) { forall g :: g in groups ==> Rooted(groups, g.id) }

  /** `after` is `groups` with one group moved. */
  ghost predicate Moved(groups: seq<Group>, after: seq<Group>, id: Id, parentId: Option<Id>) {
    && UniqueIds(groups) && UniqueIds(after) && HasParent(after, id, parentId)
    && forall x: Id, p: Option<Id> :: x != id ==> (HasParent(groups, x, p) <==> HasParent(after, x, p))
  }

  lemma UpdateMoves(groups: seq<Group>, id: Id, parentId: Option<Id>, name: string, sortOrder: int)
    requires UniqueIds(groups) && InTable(groups, id)
    ensures Moved(groups, Updated(groups, id, parentId, name, sortOrder), id, parentId)
    ensures forall x :: InTable(Updated(groups, id, parentId, name, sortOrder), x) <==> InTable(groups, x)
  {
    var after := Updated(groups, id, parentId, name, sortOrder);
    forall x: Id, p: Option<Id> | x != id ensures HasParent(groups, x, p) <==> HasParent(after, x, p) {
      if g :| g in groups && g.id == x && g.parentId == p {
        var k :| 0 <= k < |groups| && groups[k] == g;
        assert after[k] in after;
      }
      if g :| g in after && g.id == x && g.parentId == p {
        var k :| 0 <= k < |after| && after[k] == g;
        assert groups[k] in groups;
      }
    }
    var k :| 0 <= k < |groups| && groups[k].id == id;
    assert after[k] in after;
    forall x ensures InTable(after, x) <==> InTable(groups, x) {
      if g :| g in groups && g.id == x {
        var j :| 0 <= j < |groups| && groups[j] == g;
        assert after[j] in after;
      }
      if g :| g in after && g.id == x {
        var j :| 0 <= j < |after| && after[j] == g;
        assert groups[j] in groups;
      }
    }
  }

  // ---------------------------------------------------------------- what an update leaves rooted

  /** A child of a rooted group, or of none, is rooted and one step further down. */
  lemma BelowRooted(groups: seq<Group>, x: Id, p: Option<Id>)
    requires UniqueIds(groups) && HasParent(groups, x, p) && (p.Some? ==> Rooted(groups, p.value))
    ensures Rooted(groups, x) && Trail(groups, x) == (if p.None? then [] else Trail(groups, p.value)) + [x]
  {
    var g :| g in groups && g.id == x && g.parentId == p;
    ChildIsRooted(groups, p, g);
  }

  /** The parent of a rooted group is rooted, and its trail is the group's without its end. */
  lemma AboveRooted(groups: seq<Group>, x: Id, p: Id)
    requires UniqueIds(groups) && HasParent(groups, x, Some(p)) && Rooted(groups, x)
    ensures Rooted(groups, p) && Trail(groups, x) == Trail(groups, p) + [x]
  {
    var trail := Trail(groups, x);
    var last := |trail| - 1;
    assert LinkAt(groups, trail, last);
    OneParent(groups, x, Above(trail, last), Some(p));
    AncestorIsRooted(groups, x, last - 1);
    BelowRooted(groups, x, Some(p));
  }

  /** A chain that does not run through the moved group is still there. */
  lemma TrailSurvives(groups: seq<Group>, after: seq<Group>, id: Id, parentId: Option<Id>, trail: seq<Id>)
    requires Moved(groups, after, id, parentId) && IsTrail(groups, trail) && id !in trail
    ensures IsTrail(after, trail) && Rooted(after, trail[|trail| - 1])
  {
    forall k: nat | k < |trail| ensures LinkAt(after, trail, k) {
      assert LinkAt(groups, trail, k) && trail[k] != id;
    }
  }

  /** With the moved group rooted, everything below it is. */
  lemma {:induction false} RootedAgain(groups: seq<Group>, after: seq<Group>, id: Id, parentId: Option<Id>, x: Id)
    requires Moved(groups, after, id, parentId) && Rooted(groups, x) && Rooted(after, id)
    ensures Rooted(after, x)
    decreases |Trail(groups, x)|
  {
    if x != id {
      var trail := Trail(groups, x);
      var last := |trail| - 1;
      assert LinkAt(groups, trail, last);
      var p := Above(trail, last);
      if p.Some? {
        AboveRooted(groups, x, p.value);
        RootedAgain(groups, after, id, parentId, p.value);
      }
      BelowRooted(after, x, p);
    }
  }

  /** Down an old chain from the moved group each new chain is one longer than the one above it. */
  lemma {:induction false} DeeperDown(
    groups: seq<Group>, after: seq<Group>, id: Id, parentId: Option<Id>, trail: seq<Id>, k: nat, j: nat)
    requires Moved(groups, after, id, parentId) && IsTrail(groups, trail) && k <= j < |trail| && trail[k] == id
    requires Rooted(after, id)
    ensures Rooted(after, trail[j]) && |Trail(after, trail[j])| == |Trail(after, id)| + (j - k)
    decreases j
  {
    if j > k {
      DeeperDown(groups, after, id, parentId, trail, k, j - 1);
      TrailHasNoRepeats(groups, trail, k, j);
      assert LinkAt(groups, trail, j);
      BelowRooted(after, trail[j], Some(trail[j - 1]));
    }
  }

  /** And up it, from a group that is still rooted, the moved group would be. */
  lemma {:induction false} RootedUpTo(
    groups: seq<Group>, after: seq<Group>, id: Id, parentId: Option<Id>, trail: seq<Id>, k: nat, j: nat)
    requires Moved(groups, after, id, parentId) && IsTrail(groups, trail) && k <= j < |trail| && trail[k] == id
    requires Rooted(after, trail[j])
    ensures Rooted(after, id)
    decreases j
  {
    if j > k {
      TrailHasNoRepeats(groups, trail, k, j);
      assert LinkAt(groups, trail, j);
      AboveRooted(after, trail[j], trail[j - 1]);
      RootedUpTo(groups, after, id, parentId, trail, k, j - 1);
    }
  }

  /** A group moved under itself or under one of its own descendants hangs on a loop. */
  lemma MovedBelowItself(groups: seq<Group>, after: seq<Group>, id: Id, p: Id)
    requires Moved(groups, after, id, Some(p)) && Rooted(groups, p) && id in Trail(groups, p)
    ensures !Rooted(after, id)
  {
    if Rooted(after, id) {
      var trail := Trail(groups, p);
      var k :| 0 <= k < |trail| && trail[k] == id;
      DeeperDown(groups, after, id, Some(p), trail, k, |trail| - 1);
      AboveRooted(after, id, p);
    }
  }

  /** The new parent is the group itself or lies below it. */
  ghost predicate UnderItself(groups: seq<Group>, id: Id, parentId: Option<Id>)
    requires parentId.Some? ==> Rooted(groups, parentId.value)
  {
    parentId.Some? && id in Trail(groups, parentId.value)
  }

  lemma MovedRootedIff(groups: seq<Group>, after: seq<Group>, id: Id, parentId: Option<Id>)
    requires Moved(groups, after, id, parentId) && (parentId.Some? ==> Rooted(groups, parentId.value))
    ensures Rooted(after, id) <==> !UnderItself(groups, id, parentId)
  {
    if UnderItself(groups, id, parentId) {
      MovedBelowItself(groups, after, id, parentId.value);
    } else {
      if parentId.Some? {
        TrailSurvives(groups, after, id, parentId, Trail(groups, parentId.value));
      }
      BelowRooted(after, id, parentId);
    }
  }

  /** Which groups an update cuts off from the root: exactly, if the group is moved under itself or one of its
      descendants, the group and all its descendants, and otherwise none. */
  lemma UpdateCutsOff(groups: seq<Group>, id: Id, parentId: Option<Id>, name: string, sortOrder: int, x: Id)
    requires UniqueIds(groups) && InTable(groups, id) && Rooted(groups, x)
    requires parentId.Some? ==> Rooted(groups, parentId.value)
    ensures Rooted(Updated(groups, id, parentId, name, sortOrder), x)
       <==> !(UnderItself(groups, id, parentId) && id in Trail(groups, x))
  {
    var after := Updated(groups, id, parentId, name, sortOrder);
    UpdateMoves(groups, id, parentId, name, sortOrder);
    MovedRootedIff(groups, after, id, parentId);
    var trail := Trail(groups, x);
    if id !in trail {
      TrailSurvives(groups, after, id, parentId, trail);
    } else if Rooted(after, id) {
      RootedAgain(groups, after, id, parentId, x);
    } else if Rooted(after, x) {
      var k :| 0 <= k < |trail| && trail[k] == id;
      RootedUpTo(groups, after, id, parentId, trail, k, |trail| - 1);
    }
  }

  /** The check `groups::update` does not make: an update keeps a table without loops free of them if and only if the
      group is not among the new parent's ancestors, the parent itself included. */
  lemma UpdateKeepsForestIff(groups: seq<Group>, id: Id, parentId: Option<Id>, name: string, sortOrder: int)
    requires UniqueIds(groups) && AllRooted(groups) && InTable(groups, id)
    requires parentId.Some? ==> InTable(groups, parentId.value)
    ensures AllRooted(Updated(groups, id, parentId, name, sortOrder))
       <==> parentId.None? || id !in Trail(groups, parentId.value)
  {
    var after := Updated(groups, id, parentId, name, sortOrder);
    UpdateMoves(groups, id, parentId, name, sortOrder);
    UpdateCutsOff(groups, id, parentId, name, sortOrder, id);
    forall g | g in after
      ensures Rooted(after, g.id) <==> !(UnderItself(groups, id, parentId) && id in Trail(groups, g.id))
    {
      assert InTable(after, g.id);
      UpdateCutsOff(groups, id, parentId, name, sortOrder, g.id);
    }
    assert InTable(after, id);
  }

  // ---------------------------------------------------------------- a loop made

  const NESTED := [Group(0, None, "a", 0), Group(1, Some(0), "b", 0)]
  const LOOPED := [Group(0, Some(1), "a", 0), Group(1, Some(0), "b", 0)]

  lemma NestedIsForest()
    ensures UniqueIds(NESTED) && AllRooted(NESTED) && Trail(NESTED, 1) == [0, 1]
  {
    assert NESTED[0] in NESTED && NESTED[1] in NESTED;
    ChildIsRooted(NESTED, None, NESTED[0]);
    ChildIsRooted(NESTED, Some(0), NESTED[1]);
  }

  lemma LoopedIsUpdate()
    ensures Updated(NESTED, 0, Some(1), "a", 0) == LOOPED
    ensures UniqueIds(LOOPED) && ParentsExist(LOOPED) && LOOPED[0] in LOOPED
  {
    assert LOOPED[0] in LOOPED && LOOPED[1] in LOOPED;
  }

  /** Two groups, one in the other, both under the root; the outer one is moved into the inner one, both hang on a
      loop, and the climb from there uses up the cap. */
  lemma UpdateCanMakeLoop()
    ensures UniqueIds(NESTED) && AllRooted(NESTED) && Rooted(NESTED, 0) && Rooted(NESTED, 1)
    ensures Updated(NESTED, 0, Some(1), "a", 0) == LOOPED
    ensures !Rooted(LOOPED, 0) && !Rooted(LOOPED, 1)
    ensures UniqueIds(LOOPED) && ParentsExist(LOOPED) && |Climb(ById(LOOPED), Some(0), |LOOPED| + 1)| == |LOOPED| + 1
  {
    NestedIsForest();
    LoopedIsUpdate();
    assert NESTED[0] in NESTED && NESTED[1] in NESTED && InTable(NESTED, 0);
    ChildIsRooted(NESTED, None, NESTED[0]);
    UpdateCutsOff(NESTED, 0, Some(1), "a", 0, 0);
    UpdateCutsOff(NESTED, 0, Some(1), "a", 0, 1);
    CapReachedIffUnrooted(LOOPED, LOOPED[0]);
  }
}
