/** Removing panes is confluent, restoring a saved layout (src/lib/paneTree.ts:181-206) is removing the panes
    whose host is gone, and no sequence of edits squeezes a pane below a fixed size. */
module PaneRestore {
  import opened Wrappers
  import opened PaneTree
  import opened PaneGeometry

  // ---------------------------------------------------------------- removal in any order

  /** The tree without a set of panes, in one pass: a split that loses a child becomes the other child. */
  ghost function Prune(node: PaneNode, dead: set<Id>): Option<PaneNode> {
    match node
    case Leaf(p, _) => if p in dead then None else Some(node)
    case Split(s, d, r, a, b) =>
      var a', b' := Prune(a, dead), Prune(b, dead);
      if a'.Some? && b'.Some? then Some(Split(s, d, r, a'.value, b'.value))
      else if a'.Some? then a'
      else b'
  }

  /** `removeLeaf` for each id in turn, as long as a tree is left. */
  function RemoveAll(node: Option<PaneNode>, paneIds: seq<Id>): Option<PaneNode>
    decreases |paneIds|
  {
    if node.None? || paneIds == [] then node else RemoveAll(RemoveLeaf(node.value, paneIds[0]), paneIds[1..])
  }

  ghost function IdsIn(paneIds: seq<Id>): set<Id> { set p | p in paneIds }

  lemma {:induction false} PruneNothing(node: PaneNode, dead: set<Id>)
    requires PaneIds(node) !! dead
    ensures Prune(node, dead) == Some(node)
  {
    if node.Split? {
      PruneNothing(node.a, dead);
      PruneNothing(node.b, dead);
    }
  }

  lemma {:induction false} PrunePanes(node: PaneNode, dead: set<Id>)
    requires UniquePanes(node)
    ensures Prune(node, dead).None? <==> PaneIds(node) <= dead
    ensures Prune(node, dead).Some? ==>
              UniquePanes(Prune(node, dead).value) && PaneIds(Prune(node, dead).value) == PaneIds(node) - dead
  {
    if node.Split? {
      PrunePanes(node.a, dead);
      PrunePanes(node.b, dead);
    }
  }

  lemma {:induction false} PruneShrinks(node: PaneNode, dead: set<Id>)
    ensures Prune(node, dead).Some? ==> CountLeaves(Prune(node, dead).value) <= CountLeaves(node)
  {
    if node.Split? {
      PruneShrinks(node.a, dead);
      PruneShrinks(node.b, dead);
    }
  }

  lemma {:induction false} RemoveIsPrune(node: PaneNode, paneId: Id)
    requires UniquePanes(node)
    ensures RemoveLeaf(node, paneId) == Prune(node, {paneId})
  {
    if node.Split? {
      FindLeafFinds(node.a, paneId);
      FindLeafFinds(node.b, paneId);
      RemoveIsPrune(node.a, paneId);
      RemoveIsPrune(node.b, paneId);
      if paneId !in PaneIds(node.a) { PruneNothing(node.a, {paneId}); }
      if paneId !in PaneIds(node.b) { PruneNothing(node.b, {paneId}); }
    }
  }

  lemma {:induction false} PruneTwice(node: PaneNode, first: set<Id>, second: set<Id>)
    requires UniquePanes(node)
    ensures Prune(node, first + second) ==
              match Prune(node, first) case None => None case Some(rest) => Prune(rest, second)
  {
    if node.Split? {
      PruneTwice(node.a, first, second);
      PruneTwice(node.b, first, second);
    }
  }

  /** Removing panes one after another depends only on the set of panes removed, not on the order. */
  lemma {:induction false} RemovalIsConfluent(node: PaneNode, paneIds: seq<Id>)
    requires UniquePanes(node)
    ensures RemoveAll(Some(node), paneIds) == Prune(node, IdsIn(paneIds))
    decreases |paneIds|
  {
    if paneIds == [] {
      assert IdsIn(paneIds) == {};
      PruneNothing(node, {});
    } else {
      var first, rest := paneIds[0], paneIds[1..];
      var dead := IdsIn(rest);
      RemoveIsPrune(node, first);
      PrunePanes(node, {first});
      PruneTwice(node, {first}, dead);
      assert IdsIn(paneIds) == {first} + dead;
      if RemoveLeaf(node, first).Some? {
        RemovalIsConfluent(RemoveLeaf(node, first).value, rest);
      }
    }
  }

  // ---------------------------------------------------------------- save and restore

  /** The frontend builds the lookup table from a host list, so each host sits under its own id. */
  ghost predicate KeyedById(hostsById: map<string, Host>) {
    forall h :: h in hostsById ==> hostsById[h].id == h
  }

  ghost function SavedHosts(raw: SerializedPaneNode): set<string> {
    match raw
    case SLeaf(h) => {h}
    case SSplit(_, _, a, b) => SavedHosts(a) + SavedHosts(b)
  }

  function SavedSize(raw: SerializedPaneNode): (n: nat)
    ensures n >= 1
  {
    match raw case SLeaf(_) => 1 case SSplit(_, _, a, b) => SavedSize(a) + SavedSize(b)
  }

  /** The panes of a tree whose host no longer exists. */
  ghost function DeadPanes(node: PaneNode, hostsById: map<string, Host>): set<Id> {
    match node
    case Leaf(p, h) => if h.id in hostsById then {} else {p}
    case Split(_, _, _, a, b) => DeadPanes(a, hostsById) + DeadPanes(b, hostsById)
  }

  function SerializeOption(node: Option<PaneNode>): Option<SerializedPaneNode> {
    match node case None => None case Some(n) => Some(SerializeLayout(n))
  }

  lemma {:induction false} DeadPanesArePanes(node: PaneNode, hostsById: map<string, Host>)
    ensures DeadPanes(node, hostsById) <= PaneIds(node)
  {
    if node.Split? {
      DeadPanesArePanes(node.a, hostsById);
      DeadPanesArePanes(node.b, hostsById);
    }
  }

  lemma {:induction false} PruneIgnores(node: PaneNode, dead: set<Id>, other: set<Id>)
    requires dead * PaneIds(node) == other * PaneIds(node)
    ensures Prune(node, dead) == Prune(node, other)
  {
    match node
    case Leaf(p, _) =>
      assert p in dead <==> p in dead * PaneIds(node);
      assert p in other <==> p in other * PaneIds(node);
    case Split(_, _, _, a, b) =>
      assert dead * PaneIds(a) == (dead * PaneIds(node)) * PaneIds(a);
      assert other * PaneIds(a) == (other * PaneIds(node)) * PaneIds(a);
      assert dead * PaneIds(b) == (dead * PaneIds(node)) * PaneIds(b);
      assert other * PaneIds(b) == (other * PaneIds(node)) * PaneIds(b);
      PruneIgnores(a, dead, other);
      PruneIgnores(b, dead, other);
  }

  lemma {:induction false} RestoreIsPrune(node: PaneNode, hostsById: map<string, Host>, next: Id)
    requires UniquePanes(node) && KeyedById(hostsById)
    ensures SerializeOption(DeserializeLayout(SerializeLayout(node), hostsById, next).0)
         == SerializeOption(Prune(node, DeadPanes(node, hostsById)))
  {
    if node.Split? {
      var dead := DeadPanes(node, hostsById);
      DeadPanesArePanes(node.a, hostsById);
      DeadPanesArePanes(node.b, hostsById);
      PruneIgnores(node.a, dead, DeadPanes(node.a, hostsById));
      PruneIgnores(node.b, dead, DeadPanes(node.b, hostsById));
      RestoreIsPrune(node.a, hostsById, next);
      RestoreIsPrune(node.b, hostsById, DeserializeLayout(SerializeLayout(node.a), hostsById, next).1);
    }
  }

  /** Restoring a saved layout gives, up to pane and split ids, what `removeLeaf` gives when it removes every
      pane whose host is gone, in any order. */
  lemma RestoreIsRemovalOfDeadPanes(node: PaneNode, hostsById: map<string, Host>, next: Id, order: seq<Id>)
    requires UniquePanes(node) && KeyedById(hostsById)
    requires IdsIn(order) == DeadPanes(node, hostsById)
    ensures SerializeOption(DeserializeLayout(SerializeLayout(node), hostsById, next).0)
         == SerializeOption(RemoveAll(Some(node), order))
  {
    RestoreIsPrune(node, hostsById, next);
    RemovalIsConfluent(node, order);
  }

  /** A restored tree is made of new, distinct ids and of the hosts as the table has them now. */
  lemma {:induction false} RestoredPanesAreFresh(raw: SerializedPaneNode, hostsById: map<string, Host>, next: Id)
    ensures var (tree, next') := DeserializeLayout(raw, hostsById, next);
            && next <= next'
            && (tree.Some? ==>
                 && UniquePanes(tree.value)
                 && (forall p :: p in PaneIds(tree.value) ==> next <= p < next')
                 && (forall l :: l in CollectLeaves(tree.value) ==> l.host in hostsById.Values)
                 && CountLeaves(tree.value) <= SavedSize(raw))
  {
    match raw
    case SLeaf(h) =>
    case SSplit(_, _, a, b) =>
      RestoredPanesAreFresh(a, hostsById, next);
      RestoredPanesAreFresh(b, hostsById, DeserializeLayout(a, hostsById, next).1);
  }

  /** Nothing is restored exactly when no saved host survives; saving what was restored gives back the saved
      layout exactly when every saved host survives. */
  lemma {:induction false} RestoreInvertsSave(raw: SerializedPaneNode, hostsById: map<string, Host>, next: Id)
    requires KeyedById(hostsById)
    ensures var tree := DeserializeLayout(raw, hostsById, next).0;
            && (tree.None? <==> SavedHosts(raw) !! hostsById.Keys)
            && (SerializeOption(tree) == Some(raw) <==> SavedHosts(raw) <= hostsById.Keys)
            && (tree.Some? ==> CountLeaves(tree.value) <= SavedSize(raw))
            && (tree.Some? && CountLeaves(tree.value) == SavedSize(raw) ==> SavedHosts(raw) <= hostsById.Keys)
  {
    match raw
    case SLeaf(h) =>
    case SSplit(_, _, a, b) =>
      var (a', next') := DeserializeLayout(a, hostsById, next);
      var (b', _) := DeserializeLayout(b, hostsById, next');
      RestoreInvertsSave(a, hostsById, next);
      RestoreInvertsSave(b, hostsById, next');
      if a'.Some? { SerializeKeepsSize(a'.value); }
      if b'.Some? { SerializeKeepsSize(b'.value); }
  }

  lemma {:induction false} SerializeKeepsSize(node: PaneNode)
    ensures SavedSize(SerializeLayout(node)) == CountLeaves(node)
  {
    if node.Split? {
      SerializeKeepsSize(node.a);
      SerializeKeepsSize(node.b);
    }
  }

  // ---------------------------------------------------------------- every reachable tree

  datatype TreeOp =
    | OpSplit(paneId: Id, direction: Direction, newPaneId: Id, newHost: Host, next: Id)
    | OpRemove(paneId: Id)
    | OpResize(splitId: Id, newRatio: real)
    | OpSaveRestore(hostsById: map<string, Host>, next: Id)

  function Apply(node: PaneNode, op: TreeOp): Option<PaneNode> {
    match op
    case OpSplit(p, d, q, h, n) => Some(SplitLeaf(node, p, d, q, h, n).0)
    case OpRemove(p) => RemoveLeaf(node, p)
    case OpResize(s, r) => Some(ResizeSplit(node, s, r))
    case OpSaveRestore(hosts, n) => DeserializeLayout(SerializeLayout(node), hosts, n).0
  }

  function ApplyAll(node: Option<PaneNode>, ops: seq<TreeOp>): Option<PaneNode>
    decreases |ops|
  {
    if node.None? || ops == [] then node else ApplyAll(Apply(node.value, ops[0]), ops[1..])
  }

  lemma {:induction false} SplitKeepsRatios(node: PaneNode, p: Id, d: Direction, q: Id, h: Host, n: Id)
    requires RatiosWithin(node, MIN_RATIO, MAX_RATIO)
    ensures RatiosWithin(SplitLeaf(node, p, d, q, h, n).0, MIN_RATIO, MAX_RATIO)
  {
    if node.Split? {
      SplitKeepsRatios(node.a, p, d, q, h, n);
      SplitKeepsRatios(node.b, p, d, q, h, SplitLeaf(node.a, p, d, q, h, n).1);
    }
  }

  lemma {:induction false} RemoveKeepsRatios(node: PaneNode, p: Id)
    requires RatiosWithin(node, MIN_RATIO, MAX_RATIO)
    ensures RemoveLeaf(node, p).Some? ==> RatiosWithin(RemoveLeaf(node, p).value, MIN_RATIO, MAX_RATIO)
  {
    if node.Split? {
      RemoveKeepsRatios(node.a, p);
      RemoveKeepsRatios(node.b, p);
    }
  }

  lemma {:induction false} ResizeKeepsRatios(node: PaneNode, s: Id, r: real)
    requires RatiosWithin(node, MIN_RATIO, MAX_RATIO)
    ensures RatiosWithin(ResizeSplit(node, s, r), MIN_RATIO, MAX_RATIO)
  {
    if node.Split? {
      ResizeKeepsRatios(node.a, s, r);
      ResizeKeepsRatios(node.b, s, r);
    }
  }

  lemma {:induction false} RestoreKeepsRatios(node: PaneNode, hosts: map<string, Host>, n: Id)
    requires RatiosWithin(node, MIN_RATIO, MAX_RATIO)
    ensures var tree := DeserializeLayout(SerializeLayout(node), hosts, n).0;
            tree.Some? ==> RatiosWithin(tree.value, MIN_RATIO, MAX_RATIO)
  {
    if node.Split? {
      RestoreKeepsRatios(node.a, hosts, n);
      RestoreKeepsRatios(node.b, hosts, DeserializeLayout(SerializeLayout(node.a), hosts, n).1);
    }
  }

  lemma {:induction false} ReachableRatios(node: PaneNode, ops: seq<TreeOp>)
    requires RatiosWithin(node, MIN_RATIO, MAX_RATIO)
    ensures ApplyAll(Some(node), ops).Some? ==> RatiosWithin(ApplyAll(Some(node), ops).value, MIN_RATIO, MAX_RATIO)
    decreases |ops|
  {
    if ops != [] {
      match ops[0] {
        case OpSplit(p, d, q, h, n) => SplitKeepsRatios(node, p, d, q, h, n);
        case OpRemove(p) => RemoveKeepsRatios(node, p);
        case OpResize(s, r) => ResizeKeepsRatios(node, s, r);
        case OpSaveRestore(hosts, n) => RestoreKeepsRatios(node, hosts, n);
      }
      if Apply(node, ops[0]).Some? {
        ReachableRatios(Apply(node, ops[0]).value, ops[1..]);
      }
    }
  }

  /** The least a side of length x can become in one split. */
  function LeastShare(x: real): real { 0.15 * Max(0.0, x - DIVIDER_THICKNESS_PX) }

  /** The least a side of length x can become after `depth` splits. */
  function LeastSide(depth: nat, x: real): real {
    if depth == 0 then x else LeastSide(depth - 1, LeastShare(x))
  }

  /** How many splits lie above each leaf, in `collectLeaves` order. */
  function LeafDepths(node: PaneNode, depth: nat): (depths: seq<nat>)
    ensures |depths| == CountLeaves(node)
  {
    match node
    case Leaf(_, _) => [depth]
    case Split(_, _, _, a, b) => LeafDepths(a, depth + 1) + LeafDepths(b, depth + 1)
  }

  lemma {:induction false} LeastSideMonotone(depth: nat, x: real, y: real)
    requires 0.0 <= x <= y
    ensures 0.0 <= LeastSide(depth, x) <= LeastSide(depth, y)
  {
    if depth > 0 {
      LeastSideMonotone(depth - 1, LeastShare(x), LeastShare(y));
    }
  }

  /** Both children of a split get at least the least share of each side. */
  lemma ChildSides(d: Direction, aSize: real, rect: Rect)
    requires rect.width >= 0.0 && rect.height >= 0.0
    requires LeastShare(Total(d, rect)) <= aSize <= AvailablePx(d, rect) - LeastShare(Total(d, rect))
    ensures var aRect, bRect := ARect(d, aSize, rect), BRect(d, aSize, rect);
            && LeastShare(rect.width) <= aRect.width && LeastShare(rect.width) <= bRect.width
            && LeastShare(rect.height) <= aRect.height && LeastShare(rect.height) <= bRect.height
  {
  }

  lemma {:induction false} LeafSizes(node: PaneNode, rect: Rect, depth: nat, width: real, height: real)
    requires RatiosWithin(node, MIN_RATIO, MAX_RATIO)
    requires 0.0 <= width && 0.0 <= height
    requires LeastSide(depth, width) <= rect.width && LeastSide(depth, height) <= rect.height
    ensures var leaves, depths := ComputeLayout(node, rect).leaves, LeafDepths(node, depth);
            && |leaves| == |depths|
            && forall i :: 0 <= i < |leaves| ==>
                 && leaves[i].rect.width >= LeastSide(depths[i], width)
                 && leaves[i].rect.height >= LeastSide(depths[i], height)
  {
    LayoutOrder(node, rect);
    LeastSideMonotone(depth, width, width);
    LeastSideMonotone(depth, height, height);
    match node
    case Leaf(_, _) =>
    case Split(_, d, r, a, b) =>
      ChildSides(d, ASize(d, r, rect), rect);
      LeastSideDeepens(depth, width, rect.width);
      LeastSideDeepens(depth, height, rect.height);
      LeafSizes(a, ARect(d, ASize(d, r, rect), rect), depth + 1, width, height);
      LeafSizes(b, BRect(d, ASize(d, r, rect), rect), depth + 1, width, height);
  }

  lemma {:induction false} LeastSideSplits(depth: nat, x: real)
    ensures LeastSide(depth + 1, x) == LeastShare(LeastSide(depth, x))
  {
    if depth == 0 {
      assert LeastSide(1, x) == LeastSide(0, LeastShare(x));
    } else {
      LeastSideSplits(depth - 1, LeastShare(x));
    }
  }

  lemma LeastSideDeepens(depth: nat, x: real, side: real)
    requires LeastSide(depth, x) <= side
    ensures LeastSide(depth + 1, x) <= LeastShare(side)
  {
    LeastSideSplits(depth, x);
  }

  /** Whatever is done to a single-pane tree, a leaf d splits deep is at least `LeastSide(d, ...)` wide and high. */
  lemma ReachableSizes(paneId: Id, host: Host, ops: seq<TreeOp>, rect: Rect)
    requires rect.width >= 0.0 && rect.height >= 0.0
    requires ApplyAll(Some(Leaf(paneId, host)), ops).Some?
    ensures var node := ApplyAll(Some(Leaf(paneId, host)), ops).value;
            var leaves, depths := ComputeLayout(node, rect).leaves, LeafDepths(node, 0);
            && RatiosWithin(node, MIN_RATIO, MAX_RATIO)
            && |leaves| == |depths|
            && forall i :: 0 <= i < |leaves| ==>
                 && leaves[i].rect.width >= LeastSide(depths[i], rect.width)
                 && leaves[i].rect.height >= LeastSide(depths[i], rect.height)
  {
    ReachableRatios(Leaf(paneId, host), ops);
    LeafSizes(ApplyAll(Some(Leaf(paneId, host)), ops).value, rect, 0, rect.width, rect.height);
  }
}
