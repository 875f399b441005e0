/** The split-pane layout tree of src/lib/paneTree.ts: split, remove, resize, lay out, save and restore.
    `crypto.randomUUID()` is a counter of ids not handed out yet; pixels and ratios are reals. */
module PaneTree {
  import opened Wrappers

  type Id = nat

  /** A saved server. The tree reads only `id`; `name` stands for the fields it carries along. */
  datatype Host = Host(id: string, name: string)

  datatype Direction = Row | Column

  datatype PaneNode =
    | Leaf(paneId: Id, host: Host)
    | Split(splitId: Id, direction: Direction, ratio: real, a: PaneNode, b: PaneNode)

  const MIN_RATIO := 0.15
  const MAX_RATIO := 0.85
  const DIVIDER_THICKNESS_PX := 6.0

  function Max(x: real, y: real): real { if x < y then y else x }
  function Min(x: real, y: real): real { if x < y then x else y }

  // ---------------------------------------------------------------- operations

  function CountLeaves(node: PaneNode): (n: nat)
    ensures n >= 1
  {
    match node
    case Leaf(_, _) => 1
    case Split(_, _, _, a, b) => CountLeaves(a) + CountLeaves(b)
  }

  function FindLeaf(node: PaneNode, paneId: Id): Option<PaneNode> {
    match node
    case Leaf(p, _) => if p == paneId then Some(node) else None
    case Split(_, _, _, a, b) =>
      var found := FindLeaf(a, paneId);
      if found.Some? then found else FindLeaf(b, paneId)
  }

  function CollectLeaves(node: PaneNode): (leaves: seq<PaneNode>)
    ensures |leaves| == CountLeaves(node)
    ensures forall i :: 0 <= i < |leaves| ==> leaves[i].Leaf?
  {
    match node
    case Leaf(_, _) => [node]
    case Split(_, _, _, a, b) => CollectLeaves(a) + CollectLeaves(b)
  }

  /** Returns the new tree and the next unused id: every leaf that matches draws a split id. */
  function SplitLeaf(node: PaneNode, paneId: Id, direction: Direction, newPaneId: Id, newHost: Host, next: Id)
    : (PaneNode, Id)
  {
    match node
    case Leaf(p, _) =>
      if p != paneId then (node, next)
      else (Split(next, direction, 0.5, node, Leaf(newPaneId, newHost)), next + 1)
    case Split(s, d, r, a, b) =>
      var (a', next') := SplitLeaf(a, paneId, direction, newPaneId, newHost, next);
      var (b', next'') := SplitLeaf(b, paneId, direction, newPaneId, newHost, next');
      (Split(s, d, r, a', b'), next'')
  }

  function RemoveLeaf(node: PaneNode, paneId: Id): Option<PaneNode> {
    match node
    case Leaf(p, _) => if p == paneId then None else Some(node)
    case Split(_, _, _, a, b) =>
      if FindLeaf(a, paneId).Some? then
        match RemoveLeaf(a, paneId)
        case None => Some(b)
        case Some(a') => Some(node.(a := a'))
      else if FindLeaf(b, paneId).Some? then
        match RemoveLeaf(b, paneId)
        case None => Some(a)
        case Some(b') => Some(node.(b := b'))
      else Some(node)
  }

  function ResizeSplit(node: PaneNode, splitId: Id, newRatio: real): PaneNode {
    match node
    case Leaf(_, _) => node
    case Split(s, d, r, a, b) =>
      if s == splitId then node.(ratio := Max(MIN_RATIO, Min(MAX_RATIO, newRatio)))
      else Split(s, d, r, ResizeSplit(a, splitId, newRatio), ResizeSplit(b, splitId, newRatio))
  }

  // ---------------------------------------------------------------- layout

  datatype Rect = Rect(left: real, top: real, width: real, height: real)
  datatype LeafLayout = LeafLayout(paneId: Id, host: Host, rect: Rect)
  datatype DividerLayout =
    DividerLayout(splitId: Id, direction: Direction, ratio: real, availablePx: real, rect: Rect)
  datatype Layout = Layout(leaves: seq<LeafLayout>, dividers: seq<DividerLayout>)

  function Total(direction: Direction, rect: Rect): real {
    if direction.Row? then rect.width else rect.height
  }

  function AvailablePx(direction: Direction, rect: Rect): (available: real)
    ensures available >= 0.0
  {
    Max(0.0, Total(direction, rect) - DIVIDER_THICKNESS_PX)
  }

  lemma PartOfWhole(size: real, ratio: real, part: real)
    requires size >= 0.0 && 0.0 <= ratio <= 1.0 && part == size * ratio
    ensures 0.0 <= part <= size
  {
    assert size * (1.0 - ratio) >= 0.0;
  }

  /** A ratio within the clamp leaves both sides at least MIN_RATIO of the whole. */
  lemma ClampedShares(size: real, ratio: real, part: real)
    requires size >= 0.0 && MIN_RATIO <= ratio <= MAX_RATIO && part == size * ratio
    ensures 0.15 * size <= part && 0.15 * size <= size - part
  {
    assert size * (ratio - 0.15) >= 0.0;
    assert size * (0.85 - ratio) >= 0.0;
  }

  /** The share of `size` that `ratio` names; what is left over is `size - part`. */
  function Scale(size: real, ratio: real): (part: real)
    requires size >= 0.0
    ensures 0.0 <= ratio <= 1.0 ==> 0.0 <= part <= size
    ensures MIN_RATIO <= ratio <= MAX_RATIO ==> 0.15 * size <= part && 0.15 * size <= size - part
  {
    var part := size * ratio;
    assert 0.0 <= ratio <= 1.0 ==> 0.0 <= part <= size by {
      if 0.0 <= ratio <= 1.0 { PartOfWhole(size, ratio, part); }
    }
    assert MIN_RATIO <= ratio <= MAX_RATIO ==> 0.15 * size <= part && 0.15 * size <= size - part by {
      if MIN_RATIO <= ratio <= MAX_RATIO { ClampedShares(size, ratio, part); }
    }
    part
  }

  /** The pixels that child "a" gets along the split's axis. */
  function ASize(direction: Direction, ratio: real, rect: Rect): real {
    Scale(AvailablePx(direction, rect), ratio)
  }

  function ARect(direction: Direction, aSize: real, rect: Rect): Rect {
    if direction.Row? then rect.(width := aSize) else rect.(height := aSize)
  }

  function DividerRect(direction: Direction, aSize: real, rect: Rect): Rect {
    if direction.Row? then Rect(rect.left + aSize, rect.top, DIVIDER_THICKNESS_PX, rect.height)
    else Rect(rect.left, rect.top + aSize, rect.width, DIVIDER_THICKNESS_PX)
  }

  function BRect(direction: Direction, aSize: real, rect: Rect): Rect {
    var bSize := AvailablePx(direction, rect) - aSize;
    if direction.Row? then Rect(rect.left + aSize + DIVIDER_THICKNESS_PX, rect.top, bSize, rect.height)
    else Rect(rect.left, rect.top + aSize + DIVIDER_THICKNESS_PX, rect.width, bSize)
  }

  function ComputeLayout(node: PaneNode, rect: Rect): Layout {
    match node
    case Leaf(p, h) => Layout([LeafLayout(p, h, rect)], [])
    case Split(s, d, r, a, b) =>
      var aSize := ASize(d, r, rect);
      var aLayout := ComputeLayout(a, ARect(d, aSize, rect));
      var bLayout := ComputeLayout(b, BRect(d, aSize, rect));
      var divider := DividerLayout(s, d, r, AvailablePx(d, rect), DividerRect(d, aSize, rect));
      Layout(aLayout.leaves + bLayout.leaves, aLayout.dividers + [divider] + bLayout.dividers)
  }

  // ---------------------------------------------------------------- save and restore

  datatype SerializedPaneNode =
    | SLeaf(hostId: string)
    | SSplit(direction: Direction, ratio: real, a: SerializedPaneNode, b: SerializedPaneNode)

  function SerializeLayout(node: PaneNode): SerializedPaneNode {
    match node
    case Leaf(_, h) => SLeaf(h.id)
    case Split(_, d, r, a, b) => SSplit(d, r, SerializeLayout(a), SerializeLayout(b))
  }

  function DeserializeLayout(raw: SerializedPaneNode, hostsById: map<string, Host>, next: Id)
    : (Option<PaneNode>, Id)
  {
    match raw
    case SLeaf(h) => if h in hostsById then (Some(Leaf(next, hostsById[h])), next + 1) else (None, next)
    case SSplit(d, r, ra, rb) =>
      var (a, next') := DeserializeLayout(ra, hostsById, next);
      var (b, next'') := DeserializeLayout(rb, hostsById, next');
      if a.Some? && b.Some? then (Some(Split(next'', d, r, a.value, b.value)), next'' + 1)
      else if a.Some? then (a, next'')
      else (b, next'')
  }

  // ---------------------------------------------------------------- pane ids

  ghost function PaneIds(node: PaneNode): set<Id> {
    match node
    case Leaf(p, _) => {p}
    case Split(_, _, _, a, b) => PaneIds(a) + PaneIds(b)
  }

  /** No pane id occurs twice in the tree. */
  ghost predicate UniquePanes(node: PaneNode) {
    match node
    case Leaf(_, _) => true
    case Split(_, _, _, a, b) => UniquePanes(a) && UniquePanes(b) && PaneIds(a) !! PaneIds(b)
  }

  lemma FindLeafFinds(node: PaneNode, paneId: Id)
    ensures FindLeaf(node, paneId).Some? <==> paneId in PaneIds(node)
    ensures FindLeaf(node, paneId).Some? ==>
              var leaf := FindLeaf(node, paneId).value;
              leaf.Leaf? && leaf.paneId == paneId && leaf in CollectLeaves(node)
  {
  }

  /** The pane ids of a tree are those of its leaves. */
  lemma {:induction false} PaneIdsOfLeaves(node: PaneNode)
    ensures PaneIds(node) == set l | l in CollectLeaves(node) :: l.paneId
  {
    if node.Split? {
      PaneIdsOfLeaves(node.a);
      PaneIdsOfLeaves(node.b);
      assert PaneIds(node) == (set l | l in CollectLeaves(node.a) :: l.paneId)
          + (set l | l in CollectLeaves(node.b) :: l.paneId);
    }
  }
}
