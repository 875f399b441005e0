/** What `computeLayout` (src/lib/paneTree.ts:143-169) does with a container: it tiles it exactly, and each
    edit of the tree moves only the panes it has to. */
module PaneGeometry {
  import opened Wrappers
  import opened PaneTree

  // ---------------------------------------------------------------- exact tiling

  predicate Contains(r: Rect, x: real, y: real) {
    r.left <= x < r.left + r.width && r.top <= y < r.top + r.height
  }

  function In(r: Rect, x: real, y: real): nat { if Contains(r, x, y) then 1 else 0 }

  function LeafHits(leaves: seq<LeafLayout>, x: real, y: real): nat {
    if leaves == [] then 0 else In(leaves[0].rect, x, y) + LeafHits(leaves[1..], x, y)
  }

  function DividerHits(dividers: seq<DividerLayout>, x: real, y: real): nat {
    if dividers == [] then 0 else In(dividers[0].rect, x, y) + DividerHits(dividers[1..], x, y)
  }

  /** How many of a layout's rectangles the point lies in. */
  function Hits(layout: Layout, x: real, y: real): nat {
    LeafHits(layout.leaves, x, y) + DividerHits(layout.dividers, x, y)
  }

  /** Every point of the container lies in exactly one leaf or divider rectangle, no other point in any. */
  ghost predicate Tiles(layout: Layout, rect: Rect) {
    forall x, y :: Hits(layout, x, y) == In(rect, x, y)
  }

  predicate RatiosWithin(node: PaneNode, lo: real, hi: real) {
    match node
    case Leaf(_, _) => true
    case Split(_, _, r, a, b) => lo <= r <= hi && RatiosWithin(a, lo, hi) && RatiosWithin(b, lo, hi)
  }

  /** Every split that has any extent across its axis has room for its divider along the axis. */
  predicate DividersFit(node: PaneNode, rect: Rect) {
    match node
    case Leaf(_, _) => true
    case Split(_, d, r, a, b) =>
      && ((if d.Row? then rect.height else rect.width) > 0.0 ==> Total(d, rect) >= DIVIDER_THICKNESS_PX)
      && DividersFit(a, ARect(d, ASize(d, r, rect), rect))
      && DividersFit(b, BRect(d, ASize(d, r, rect), rect))
  }

  lemma {:induction false} LeafHitsAppend(s: seq<LeafLayout>, t: seq<LeafLayout>, x: real, y: real)
    ensures LeafHits(s + t, x, y) == LeafHits(s, x, y) + LeafHits(t, x, y)
  {
    if s == [] {
      assert s + t == t;
    } else {
      LeafHitsAppend(s[1..], t, x, y);
      assert (s + t)[1..] == s[1..] + t;
    }
  }

  lemma {:induction false} DividerHitsAppend(s: seq<DividerLayout>, t: seq<DividerLayout>, x: real, y: real)
    ensures DividerHits(s + t, x, y) == DividerHits(s, x, y) + DividerHits(t, x, y)
  {
    if s == [] {
      assert s + t == t;
    } else {
      DividerHitsAppend(s[1..], t, x, y);
      assert (s + t)[1..] == s[1..] + t;
    }
  }

  /** A split's rectangles are those of its two children plus its divider. */
  lemma SplitHits(node: PaneNode, rect: Rect, x: real, y: real)
    requires node.Split?
    ensures var d, r := node.direction, node.ratio;
            Hits(ComputeLayout(node, rect), x, y) ==
              Hits(ComputeLayout(node.a, ARect(d, ASize(d, r, rect), rect)), x, y)
                  + In(DividerRect(d, ASize(d, r, rect), rect), x, y)
              + Hits(ComputeLayout(node.b, BRect(d, ASize(d, r, rect), rect)), x, y)
  {
    var d, r := node.direction, node.ratio;
    var la, lb := ComputeLayout(node.a, ARect(d, ASize(d, r, rect), rect)),
        ComputeLayout(node.b, BRect(d, ASize(d, r, rect), rect));
    var divider := DividerLayout(node.splitId, d, r, AvailablePx(d, rect), DividerRect(d, ASize(d, r, rect), rect));
    LeafHitsAppend(la.leaves, lb.leaves, x, y);
    DividerHitsAppend(la.dividers + [divider], lb.dividers, x, y);
    DividerHitsAppend(la.dividers, [divider], x, y);
  }

  /** Along one axis: [lo, lo+total) against its first part, the divider and the second part. */
  lemma AxisCover(lo: real, total: real, available: real, aSize: real, x: real)
    requires total >= 0.0 && available == Max(0.0, total - DIVIDER_THICKNESS_PX) && 0.0 <= aSize <= available
    ensures var inA := lo <= x < lo + aSize;
            var inDivider := lo + aSize <= x < lo + aSize + DIVIDER_THICKNESS_PX;
            var bLo := lo + aSize + DIVIDER_THICKNESS_PX;
            var inB := bLo <= x < bLo + (available - aSize);
            && !(inA && inDivider) && !(inA && inB) && !(inDivider && inB)
            && (lo <= x < lo + total ==> inA || inDivider || inB)
            && (total >= DIVIDER_THICKNESS_PX && (inA || inDivider || inB) ==> lo <= x < lo + total)
  {
  }

  /** The three parts of a split cover its rectangle, and partition it when the divider fits. */
  lemma PartsCover(direction: Direction, aSize: real, rect: Rect, x: real, y: real)
    requires 0.0 <= aSize <= AvailablePx(direction, rect) && rect.width >= 0.0 && rect.height >= 0.0
    ensures var aRect, bRect := ARect(direction, aSize, rect), BRect(direction, aSize, rect);
            && aRect.width >= 0.0 && aRect.height >= 0.0 && bRect.width >= 0.0 && bRect.height >= 0.0
            && In(rect, x, y) <= In(aRect, x, y) + In(DividerRect(direction, aSize, rect), x, y) + In(bRect, x, y)
            && (Total(direction, rect) >= DIVIDER_THICKNESS_PX ==>
                 In(rect, x, y) == In(aRect, x, y) + In(DividerRect(direction, aSize, rect), x, y) + In(bRect, x, y))
  {
    if direction.Row? {
      AxisCover(rect.left, rect.width, AvailablePx(direction, rect), aSize, x);
    } else {
      AxisCover(rect.top, rect.height, AvailablePx(direction, rect), aSize, y);
    }
  }

  lemma {:induction false} LayoutCovers(node: PaneNode, rect: Rect, x: real, y: real)
    requires RatiosWithin(node, 0.0, 1.0) && rect.width >= 0.0 && rect.height >= 0.0
    ensures Hits(ComputeLayout(node, rect), x, y) >= In(rect, x, y)
    ensures DividersFit(node, rect) ==> Hits(ComputeLayout(node, rect), x, y) == In(rect, x, y)
  {
    match node
    case Leaf(p, h) =>
      assert LeafHits([LeafLayout(p, h, rect)], x, y) == In(rect, x, y) + LeafHits([], x, y);
    case Split(_, d, r, a, b) =>
      PartsCover(d, ASize(d, r, rect), rect, x, y);
      LayoutCovers(a, ARect(d, ASize(d, r, rect), rect), x, y);
      LayoutCovers(b, BRect(d, ASize(d, r, rect), rect), x, y);
      SplitHits(node, rect, x, y);
  }

  /** Where a divider does not fit, some point is drawn over once too often. */
  lemma {:induction false} OverfullSplit(node: PaneNode, rect: Rect) returns (x: real, y: real)
    requires RatiosWithin(node, 0.0, 1.0) && rect.width >= 0.0 && rect.height >= 0.0
    requires !DividersFit(node, rect)
    ensures Hits(ComputeLayout(node, rect), x, y) > In(rect, x, y)
  {
    var Split(_, d, r, a, b) := node;
    var aRect, bRect := ARect(d, ASize(d, r, rect), rect), BRect(d, ASize(d, r, rect), rect);
    PartsCover(d, ASize(d, r, rect), rect, 0.0, 0.0);
    if !DividersFit(a, aRect) {
      x, y := OverfullSplit(a, aRect);
    } else if !DividersFit(b, bRect) {
      x, y := OverfullSplit(b, bRect);
    } else {
      // The divider sticks out of the rectangle: its far edge lies beyond rect's own.
      x := if d.Row? then rect.left + rect.width else rect.left;
      y := if d.Row? then rect.top else rect.top + rect.height;
      assert AvailablePx(d, rect) == 0.0;
    }
    PartsCover(d, ASize(d, r, rect), rect, x, y);
    LayoutCovers(a, aRect, x, y);
    LayoutCovers(b, bRect, x, y);
    SplitHits(node, rect, x, y);
  }

  /** The layout tiles its container exactly if and only if every divider fits. */
  lemma ExactTiling(node: PaneNode, rect: Rect)
    requires RatiosWithin(node, 0.0, 1.0) && rect.width >= 0.0 && rect.height >= 0.0
    ensures Tiles(ComputeLayout(node, rect), rect) <==> DividersFit(node, rect)
  {
    if DividersFit(node, rect) {
      forall x, y ensures Hits(ComputeLayout(node, rect), x, y) == In(rect, x, y) {
        LayoutCovers(node, rect, x, y);
      }
    } else {
      var x, y := OverfullSplit(node, rect);
    }
  }

  // ---------------------------------------------------------------- sides and order

  /** Every split has room for its divider along its axis. */
  predicate Roomy(node: PaneNode, rect: Rect) {
    match node
    case Leaf(_, _) => true
    case Split(_, d, r, a, b) =>
      && Total(d, rect) >= DIVIDER_THICKNESS_PX
      && Roomy(a, ARect(d, ASize(d, r, rect), rect)) && Roomy(b, BRect(d, ASize(d, r, rect), rect))
  }

  predicate Inside(inner: Rect, outer: Rect) {
    && outer.left <= inner.left && inner.left + inner.width <= outer.left + outer.width
    && outer.top <= inner.top && inner.top + inner.height <= outer.top + outer.height
  }

  lemma {:induction false} LeavesInside(node: PaneNode, rect: Rect)
    requires RatiosWithin(node, 0.0, 1.0) && Roomy(node, rect) && rect.width >= 0.0 && rect.height >= 0.0
    ensures forall l :: l in ComputeLayout(node, rect).leaves ==> Inside(l.rect, rect)
  {
    if node.Split? {
      var d := node.direction;
      var aSize := ASize(d, node.ratio, rect);
      LeavesInside(node.a, ARect(d, aSize, rect));
      LeavesInside(node.b, BRect(d, aSize, rect));
    }
  }

  predicate Before(direction: Direction, first: Rect, second: Rect) {
    if direction.Row? then first.left + first.width + DIVIDER_THICKNESS_PX <= second.left
    else first.top + first.height + DIVIDER_THICKNESS_PX <= second.top
  }

  /** A row puts its first child's panes to the left of its second child's, a column above them, with at least a
      divider between. */
  lemma SplitSides(node: PaneNode, rect: Rect, i: nat, j: nat)
    requires node.Split? && RatiosWithin(node, 0.0, 1.0) && Roomy(node, rect) && rect.width >= 0.0 && rect.height >= 0.0
    requires i < CountLeaves(node.a) <= j < |ComputeLayout(node, rect).leaves|
    ensures Before(node.direction, ComputeLayout(node, rect).leaves[i].rect, ComputeLayout(node, rect).leaves[j].rect)
  {
    var d := node.direction;
    var aSize := ASize(d, node.ratio, rect);
    var first, second := ComputeLayout(node.a, ARect(d, aSize, rect)), ComputeLayout(node.b, BRect(d, aSize, rect));
    LayoutOrder(node.a, ARect(d, aSize, rect));
    LeavesInside(node.a, ARect(d, aSize, rect));
    LeavesInside(node.b, BRect(d, aSize, rect));
    assert first.leaves[i] in first.leaves && second.leaves[j - |first.leaves|] in second.leaves;
  }

  /** Leaves come out in `collectLeaves` order, with one divider fewer than leaves. */
  lemma {:induction false} LayoutOrder(node: PaneNode, rect: Rect)
    ensures var layout := ComputeLayout(node, rect);
            && |layout.leaves| == |CollectLeaves(node)| == CountLeaves(node)
            && |layout.dividers| + 1 == |layout.leaves|
            && forall i :: 0 <= i < |layout.leaves| ==>
                 CollectLeaves(node)[i] == Leaf(layout.leaves[i].paneId, layout.leaves[i].host)
  {
    match node
    case Leaf(_, _) =>
    case Split(_, d, r, a, b) =>
      LayoutOrder(a, ARect(d, ASize(d, r, rect), rect));
      LayoutOrder(b, BRect(d, ASize(d, r, rect), rect));
  }

  // ---------------------------------------------------------------- locality

  /** The layout entries of a subtree carry only its pane ids. */
  lemma {:induction false} LayoutPanes(node: PaneNode, rect: Rect)
    ensures forall l :: l in ComputeLayout(node, rect).leaves ==> l.paneId in PaneIds(node)
  {
    if node.Split? {
      LayoutPanes(node.a, ARect(node.direction, ASize(node.direction, node.ratio, rect), rect));
      LayoutPanes(node.b, BRect(node.direction, ASize(node.direction, node.ratio, rect), rect));
    }
  }

  lemma {:induction false} SplitElsewhere(
    node: PaneNode, paneId: Id, direction: Direction, newPaneId: Id, newHost: Host, next: Id)
    requires paneId !in PaneIds(node)
    ensures SplitLeaf(node, paneId, direction, newPaneId, newHost, next) == (node, next)
  {
    if node.Split? {
      SplitElsewhere(node.a, paneId, direction, newPaneId, newHost, next);
      SplitElsewhere(node.b, paneId, direction, newPaneId, newHost, next);
    }
  }

  lemma {:induction false} SplitDrawsOneId(
    node: PaneNode, paneId: Id, direction: Direction, newPaneId: Id, newHost: Host, next: Id)
    requires UniquePanes(node) && paneId in PaneIds(node)
    ensures SplitLeaf(node, paneId, direction, newPaneId, newHost, next).1 == next + 1
  {
    if node.Split? {
      if paneId in PaneIds(node.a) {
        SplitDrawsOneId(node.a, paneId, direction, newPaneId, newHost, next);
        SplitElsewhere(node.b, paneId, direction, newPaneId, newHost, next + 1);
      } else {
        SplitElsewhere(node.a, paneId, direction, newPaneId, newHost, next);
        SplitDrawsOneId(node.b, paneId, direction, newPaneId, newHost, next);
      }
    }
  }

  /** Two layouts, one after the other. */
  function Beside(first: Layout, second: Layout): Layout {
    Layout(first.leaves + second.leaves, first.dividers + second.dividers)
  }

  /** The same two layouts with something between them. */
  function Around(before: Layout, middle: Layout, after: Layout): Layout {
    Layout(before.leaves + middle.leaves + after.leaves, before.dividers + middle.dividers + after.dividers)
  }

  lemma AroundBeside(before: Layout, middle: Layout, after: Layout, outer: Layout)
    ensures Beside(Around(before, middle, after), outer) == Around(before, middle, Beside(after, outer))
    ensures Beside(outer, Around(before, middle, after)) == Around(Beside(outer, before), middle, after)
  {
    var l, m := before.leaves + middle.leaves + after.leaves, before.dividers + middle.dividers + after.dividers;
    assert l + outer.leaves == before.leaves + middle.leaves + (after.leaves + outer.leaves);
    assert m + outer.dividers == before.dividers + middle.dividers + (after.dividers + outer.dividers);
    assert outer.leaves + l == (outer.leaves + before.leaves) + middle.leaves + after.leaves;
    assert outer.dividers + m == (outer.dividers + before.dividers) + middle.dividers + after.dividers;
  }

  function OneDivider(node: PaneNode, rect: Rect): Layout
    requires node.Split?
  {
    var d, r := node.direction, node.ratio;
    Layout([], [DividerLayout(node.splitId, d, r, AvailablePx(d, rect), DividerRect(d, ASize(d, r, rect), rect))])
  }

  /** A split's layout is its first child's, its divider, its second child's. */
  lemma LayoutOfSplit(node: PaneNode, rect: Rect)
    requires node.Split?
    ensures var d := node.direction;
            var aSize := ASize(d, node.ratio, rect);
            ComputeLayout(node, rect) ==
              Beside(ComputeLayout(node.a, ARect(d, aSize, rect)),
                     Beside(OneDivider(node, rect), ComputeLayout(node.b, BRect(d, aSize, rect))))
  {
    var d := node.direction;
    var aSize := ASize(d, node.ratio, rect);
    var first, second := ComputeLayout(node.a, ARect(d, aSize, rect)), ComputeLayout(node.b, BRect(d, aSize, rect));
    assert [] + second.leaves == second.leaves;
    assert first.dividers + (OneDivider(node, rect).dividers + second.dividers)
        == first.dividers + OneDivider(node, rect).dividers + second.dividers;
  }

  function Halves(splitId: Id, direction: Direction, old': LeafLayout, newPaneId: Id, newHost: Host): PaneNode {
    Split(splitId, direction, 0.5, Leaf(old'.paneId, old'.host), Leaf(newPaneId, newHost))
  }

  /** Splitting a pane divides that pane's own rectangle in halves and leaves every other entry of the layout, leaves
      and dividers alike, in its place as it was. */
  lemma {:induction false} SplitLocality(
    node: PaneNode, paneId: Id, direction: Direction, newPaneId: Id, newHost: Host, next: Id, rect: Rect)
    returns (before: Layout, old': LeafLayout, after: Layout)
    requires UniquePanes(node) && paneId in PaneIds(node)
    ensures old'.paneId == paneId
    ensures ComputeLayout(node, rect) == Around(before, Layout([old'], []), after)
    ensures var (node', next') := SplitLeaf(node, paneId, direction, newPaneId, newHost, next);
            var halves := ComputeLayout(Halves(next, direction, old', newPaneId, newHost), old'.rect);
            next' == next + 1 && ComputeLayout(node', rect) == Around(before, halves, after)
  {
    match node
    case Leaf(p, h) =>
      before, old', after := Layout([], []), LeafLayout(p, h, rect), Layout([], []);
      var halves := ComputeLayout(Halves(next, direction, old', newPaneId, newHost), rect);
      assert [] + halves.leaves + [] == halves.leaves && [] + halves.dividers + [] == halves.dividers;
    case Split(_, d, r, a, b) =>
      var aRect, bRect := ARect(d, ASize(d, r, rect), rect), BRect(d, ASize(d, r, rect), rect);
      var node' := SplitLeaf(node, paneId, direction, newPaneId, newHost, next).0;
      var divider := OneDivider(node, rect);
      LayoutOfSplit(node, rect);
      if paneId in PaneIds(a) {
        SplitElsewhere(b, paneId, direction, newPaneId, newHost, next + 1);
        var inner;
        before, old', inner := SplitLocality(a, paneId, direction, newPaneId, newHost, next, aRect);
        var outer := Beside(divider, ComputeLayout(b, bRect));
        after := Beside(inner, outer);
        LayoutOfSplit(node', rect);
        AroundBeside(before, Layout([old'], []), inner, outer);
        AroundBeside(before, ComputeLayout(Halves(next, direction, old', newPaneId, newHost), old'.rect), inner, outer);
      } else {
        SplitElsewhere(a, paneId, direction, newPaneId, newHost, next);
        var inner;
        inner, old', after := SplitLocality(b, paneId, direction, newPaneId, newHost, next, bRect);
        var halves := ComputeLayout(Halves(next, direction, old', newPaneId, newHost), old'.rect);
        before := Beside(ComputeLayout(a, aRect), Beside(divider, inner));
        LayoutOfSplit(node', rect);
        AroundBeside(inner, Layout([old'], []), after, divider);
        AroundBeside(Beside(divider, inner), Layout([old'], []), after, ComputeLayout(a, aRect));
        AroundBeside(inner, halves, after, divider);
        AroundBeside(Beside(divider, inner), halves, after, ComputeLayout(a, aRect));
      }
  }

  /** The split that has the pane as a direct child, seen from the pane: the other child. */
  function Sibling(node: PaneNode, paneId: Id): PaneNode
    requires node.Split?
  {
    var Split(_, _, _, a, b) := node;
    if FindLeaf(a, paneId).Some? then (if a.Leaf? then b else Sibling(a, paneId))
    else if b.Leaf? then a else Sibling(b, paneId)
  }

  /** The rectangle of the split that has the pane as a direct child. */
  function ParentRect(node: PaneNode, paneId: Id, rect: Rect): Rect
    requires node.Split?
  {
    var Split(_, d, r, a, b) := node;
    if FindLeaf(a, paneId).Some?
        then (if a.Leaf? then rect else ParentRect(a, paneId, ARect(d, ASize(d, r, rect), rect)))
    else if b.Leaf? then rect else ParentRect(b, paneId, BRect(d, ASize(d, r, rect), rect))
  }

  /** The split that has the pane as a direct child. */
  function ParentSplit(node: PaneNode, paneId: Id): (parent: PaneNode)
    requires node.Split?
    ensures parent.Split?
  {
    var Split(_, _, _, a, b) := node;
    if FindLeaf(a, paneId).Some? then (if a.Leaf? then node else ParentSplit(a, paneId))
    else if b.Leaf? then node else ParentSplit(b, paneId)
  }

  predicate IsPane(node: PaneNode, paneId: Id) { node.Leaf? && node.paneId == paneId }

  lemma NothingAround(layout: Layout)
    ensures Around(Layout([], []), layout, Layout([], [])) == layout
  {
    assert [] + layout.leaves + [] == layout.leaves && [] + layout.dividers + [] == layout.dividers;
  }

  /** Removing a pane puts the sibling subtree in the place of the split they shared; every other leaf and divider
      stays in its place as it was. */
  lemma {:induction false} RemoveInPlace(node: PaneNode, paneId: Id, rect: Rect) returns (before: Layout, after: Layout)
    requires UniquePanes(node) && paneId in PaneIds(node) && node.Split?
    ensures var parent, parentRect := ParentSplit(node, paneId), ParentRect(node, paneId, rect);
            var sibling := Sibling(node, paneId);
            && ((IsPane(parent.a, paneId) && parent.b == sibling) || (IsPane(parent.b, paneId) && parent.a == sibling))
            && ComputeLayout(node, rect) == Around(before, ComputeLayout(parent, parentRect), after)
            && RemoveLeaf(node, paneId).Some?
            && ComputeLayout(RemoveLeaf(node, paneId).value, rect)
               == Around(before, ComputeLayout(sibling, parentRect), after)
  {
    var Split(_, d, r, a, b) := node;
    var aRect, bRect := ARect(d, ASize(d, r, rect), rect), BRect(d, ASize(d, r, rect), rect);
    var parent, sibling := ParentSplit(node, paneId), Sibling(node, paneId);
    var parentLayout := ComputeLayout(parent, ParentRect(node, paneId, rect));
    var siblingLayout := ComputeLayout(sibling, ParentRect(node, paneId, rect));
    var divider := OneDivider(node, rect);
    FindLeafFinds(a, paneId);
    FindLeafFinds(b, paneId);
    if (if paneId in PaneIds(a) then a.Leaf? else b.Leaf?) {
      before, after := Layout([], []), Layout([], []);
      NothingAround(parentLayout);
      NothingAround(siblingLayout);
    } else {
      LayoutOfSplit(node, rect);
      if paneId in PaneIds(a) {
        var inner;
        before, inner := RemoveInPlace(a, paneId, aRect);
        var outer := Beside(divider, ComputeLayout(b, bRect));
        after := Beside(inner, outer);
        LayoutOfSplit(RemoveLeaf(node, paneId).value, rect);
        AroundBeside(before, parentLayout, inner, outer);
        AroundBeside(before, siblingLayout, inner, outer);
      } else {
        var inner;
        inner, after := RemoveInPlace(b, paneId, bRect);
        var outer := Beside(divider, inner);
        before := Beside(ComputeLayout(a, aRect), outer);
        LayoutOfSplit(RemoveLeaf(node, paneId).value, rect);
        AroundBeside(inner, parentLayout, after, divider);
        AroundBeside(outer, parentLayout, after, ComputeLayout(a, aRect));
        AroundBeside(inner, siblingLayout, after, divider);
        AroundBeside(outer, siblingLayout, after, ComputeLayout(a, aRect));
      }
    }
  }

  /** Pane by pane: removing one hands its parent's rectangle to the panes of the sibling subtree, and every other pane
      keeps its own. */
  lemma {:induction false} RemoveLocality(node: PaneNode, paneId: Id, rect: Rect)
    requires UniquePanes(node) && paneId in PaneIds(node) && node.Split?
    ensures var sibling := Sibling(node, paneId);
            var taken := ComputeLayout(sibling, ParentRect(node, paneId, rect)).leaves;
            var removed := RemoveLeaf(node, paneId);
            && removed.Some? && PaneIds(removed.value) == PaneIds(node) - {paneId}
            && PaneIds(sibling) <= PaneIds(node) - {paneId}
            && forall l :: l in ComputeLayout(removed.value, rect).leaves <==>
                             if l.paneId in PaneIds(sibling) then l in taken
                             else l in ComputeLayout(node, rect).leaves && l.paneId != paneId
  {
    var Split(_, d, r, a, b) := node;
    var aRect, bRect := ARect(d, ASize(d, r, rect), rect), BRect(d, ASize(d, r, rect), rect);
    FindLeafFinds(a, paneId);
    FindLeafFinds(b, paneId);
    LayoutPanes(a, aRect);
    LayoutPanes(b, bRect);
    if paneId in PaneIds(a) {
      if a.Split? {
        RemoveLocality(a, paneId, aRect);
        LayoutPanes(RemoveLeaf(a, paneId).value, aRect);
      } else {
        LayoutPanes(b, rect);
      }
    } else {
      if b.Split? {
        RemoveLocality(b, paneId, bRect);
        LayoutPanes(RemoveLeaf(b, paneId).value, bRect);
      } else {
        LayoutPanes(a, rect);
      }
    }
  }

  /** Panes below a split with this id. */
  ghost function PanesUnder(node: PaneNode, splitId: Id): set<Id> {
    match node
    case Leaf(_, _) => {}
    case Split(s, _, _, a, b) =>
      if s == splitId then PaneIds(node) else PanesUnder(a, splitId) + PanesUnder(b, splitId)
  }

  ghost function SplitIds(node: PaneNode): set<Id> {
    match node
    case Leaf(_, _) => {}
    case Split(s, _, _, a, b) => {s} + SplitIds(a) + SplitIds(b)
  }

  /** A split with this id and the splits below it. */
  ghost function SplitsUnder(node: PaneNode, splitId: Id): set<Id> {
    match node
    case Leaf(_, _) => {}
    case Split(s, _, _, a, b) =>
      if s == splitId then SplitIds(node) else SplitsUnder(a, splitId) + SplitsUnder(b, splitId)
  }

  lemma {:induction false} LayoutSplits(node: PaneNode, rect: Rect)
    ensures forall v :: v in ComputeLayout(node, rect).dividers ==> v.splitId in SplitIds(node)
  {
    if node.Split? {
      var d, aSize := node.direction, ASize(node.direction, node.ratio, rect);
      LayoutSplits(node.a, ARect(d, aSize, rect));
      LayoutSplits(node.b, BRect(d, aSize, rect));
    }
  }

  /** Resizing keeps panes and order, and moves only panes below the resized split. */
  lemma {:induction false} ResizeKeepsPanesElsewhere(node: PaneNode, splitId: Id, newRatio: real, rect: Rect)
    ensures var resized := ResizeSplit(node, splitId, newRatio);
            var before, after := ComputeLayout(node, rect).leaves, ComputeLayout(resized, rect).leaves;
            && CollectLeaves(resized) == CollectLeaves(node)
            && |before| == |after|
            && forall i :: 0 <= i < |before| && before[i].paneId !in PanesUnder(node, splitId) ==> before[i] == after[i]
  {
    LayoutOrder(node, rect);
    LayoutOrder(ResizeSplit(node, splitId, newRatio), rect);
    match node
    case Leaf(_, _) =>
    case Split(s, d, r, a, b) =>
      var aRect, bRect := ARect(d, ASize(d, r, rect), rect), BRect(d, ASize(d, r, rect), rect);
      if s == splitId {
        LayoutPanes(node, rect);
      } else {
        ResizeKeepsPanesElsewhere(a, splitId, newRatio, aRect);
        ResizeKeepsPanesElsewhere(b, splitId, newRatio, bRect);
      }
  }

  /** And it keeps the dividers and their order, and changes only the resized split's and those below it. */
  lemma {:induction false} ResizeKeepsDividersElsewhere(node: PaneNode, splitId: Id, newRatio: real, rect: Rect)
    ensures var resized := ResizeSplit(node, splitId, newRatio);
            var before, after := ComputeLayout(node, rect).dividers, ComputeLayout(resized, rect).dividers;
            && |before| == |after|
            && forall i :: 0 <= i < |before| ==>
                 && after[i].splitId == before[i].splitId
                 && (before[i].splitId !in SplitsUnder(node, splitId) ==> before[i] == after[i])
  {
    match node
    case Leaf(_, _) =>
    case Split(s, d, r, a, b) =>
      var aRect, bRect := ARect(d, ASize(d, r, rect), rect), BRect(d, ASize(d, r, rect), rect);
      if s == splitId {
        LayoutSplits(node, rect);
        SameSplits(node, ResizeSplit(node, splitId, newRatio), rect, rect);
      } else {
        ResizeKeepsDividersElsewhere(a, splitId, newRatio, aRect);
        ResizeKeepsDividersElsewhere(b, splitId, newRatio, bRect);
      }
  }

  /** Trees that differ in ratios alone list the same splits, whatever their rectangles. */
  lemma {:induction false} SameSplits(node: PaneNode, other: PaneNode, rect: Rect, otherRect: Rect)
    requires node == other || (node.Split? && other.Split? && other == node.(ratio := other.ratio))
    ensures var these, those := ComputeLayout(node, rect).dividers, ComputeLayout(other, otherRect).dividers;
            |these| == |those| && forall i :: 0 <= i < |these| ==> these[i].splitId == those[i].splitId
  {
    if node.Split? {
      var d := node.direction;
      var size, otherSize := ASize(d, node.ratio, rect), ASize(d, other.ratio, otherRect);
      SameSplits(node.a, other.a, ARect(d, size, rect), ARect(d, otherSize, otherRect));
      SameSplits(node.b, other.b, BRect(d, size, rect), BRect(d, otherSize, otherRect));
    }
  }

  /** Resizing keeps panes, dividers and their order, and changes only the resized split's divider and what lies below
      that split. */
  lemma ResizeLocality(node: PaneNode, splitId: Id, newRatio: real, rect: Rect)
    ensures var resized := ResizeSplit(node, splitId, newRatio);
            var before, after := ComputeLayout(node, rect), ComputeLayout(resized, rect);
            && CollectLeaves(resized) == CollectLeaves(node)
            && |before.leaves| == |after.leaves| && |before.dividers| == |after.dividers|
            && (forall i :: 0 <= i < |before.leaves| && before.leaves[i].paneId !in PanesUnder(node, splitId) ==>
                  before.leaves[i] == after.leaves[i])
            && (forall i :: 0 <= i < |before.dividers| && before.dividers[i].splitId !in SplitsUnder(node, splitId) ==>
                  before.dividers[i] == after.dividers[i])
            && (forall i :: 0 <= i < |before.dividers| ==> before.dividers[i].splitId == after.dividers[i].splitId)
  {
    ResizeKeepsPanesElsewhere(node, splitId, newRatio, rect);
    ResizeKeepsDividersElsewhere(node, splitId, newRatio, rect);
  }

  function FindSplit(node: PaneNode, splitId: Id): (found: Option<PaneNode>)
    ensures found.Some? ==> found.value.Split?
  {
    match node
    case Leaf(_, _) => None
    case Split(s, _, _, a, b) =>
      if s == splitId then Some(node)
      else if FindSplit(a, splitId).Some? then FindSplit(a, splitId)
      else FindSplit(b, splitId)
  }

  /** The resized split gets the ratio asked for, as far as the limits allow, and is otherwise as it was; an
      unknown split changes nothing. */
  lemma {:induction false} ResizeSetsRatio(node: PaneNode, splitId: Id, newRatio: real)
    ensures var found, resized := FindSplit(node, splitId), ResizeSplit(node, splitId, newRatio);
            if found.None? then resized == node
            else exists ratio: real ::
              && FindSplit(resized, splitId) == Some(found.value.(ratio := ratio))
              && (0.15 <= newRatio <= 0.85 ==> ratio == newRatio)
              && (newRatio < 0.15 ==> ratio == 0.15)
              && (newRatio > 0.85 ==> ratio == 0.85)
  {
    if node.Split? && node.splitId != splitId {
      ResizeSetsRatio(node.a, splitId, newRatio);
      ResizeSetsRatio(node.b, splitId, newRatio);
    } else if node.Split? {
      assert FindSplit(ResizeSplit(node, splitId, newRatio), splitId)
          == Some(node.(ratio := Max(MIN_RATIO, Min(MAX_RATIO, newRatio))));
    }
  }

  /** Splitting adds exactly the new pane and keeps ids distinct. */
  lemma {:induction false} SplitPanes(
    node: PaneNode, paneId: Id, direction: Direction, newPaneId: Id, newHost: Host, next: Id)
    requires UniquePanes(node) && paneId in PaneIds(node) && newPaneId !in PaneIds(node)
    ensures var node' := SplitLeaf(node, paneId, direction, newPaneId, newHost, next).0;
            && UniquePanes(node') && PaneIds(node') == PaneIds(node) + {newPaneId}
            && CountLeaves(node') == CountLeaves(node) + 1
            && CollectLeaves(node')[0] == CollectLeaves(node)[0]
  {
    if node.Split? {
      if paneId in PaneIds(node.a) {
        SplitPanes(node.a, paneId, direction, newPaneId, newHost, next);
        SplitElsewhere(node.b, paneId, direction, newPaneId, newHost,
            SplitLeaf(node.a, paneId, direction, newPaneId, newHost, next).1);
      } else {
        SplitElsewhere(node.a, paneId, direction, newPaneId, newHost, next);
        SplitPanes(node.b, paneId, direction, newPaneId, newHost, next);
      }
    }
  }

  /** The new pane sits beside the pane that was split, which comes first, in a split of its own across the direction
      asked for, each with half of it; every pane there was is found as before. */
  lemma {:induction false} SplitBesides(
    node: PaneNode, paneId: Id, direction: Direction, newPaneId: Id, newHost: Host, next: Id)
    requires UniquePanes(node) && paneId in PaneIds(node) && newPaneId !in PaneIds(node)
    ensures var node' := SplitLeaf(node, paneId, direction, newPaneId, newHost, next).0;
            && node'.Split? && FindLeaf(node, paneId).Some?
            && ParentSplit(node', newPaneId)
               == Split(next, direction, 0.5, FindLeaf(node, paneId).value, Leaf(newPaneId, newHost))
            && FindLeaf(node', newPaneId) == Some(Leaf(newPaneId, newHost))
            && forall q :: q != newPaneId ==> FindLeaf(node', q) == FindLeaf(node, q)
  {
    FindLeafFinds(node, paneId);
    match node
    case Leaf(_, _) =>
    case Split(_, _, _, a, b) =>
      var (a', next') := SplitLeaf(a, paneId, direction, newPaneId, newHost, next);
      FindLeafFinds(a, newPaneId);
      if paneId in PaneIds(a) {
        SplitElsewhere(b, paneId, direction, newPaneId, newHost, next');
        SplitBesides(a, paneId, direction, newPaneId, newHost, next);
      } else {
        SplitElsewhere(a, paneId, direction, newPaneId, newHost, next);
        SplitBesides(b, paneId, direction, newPaneId, newHost, next);
        FindLeafFinds(a, paneId);
      }
  }

  /** Removing a just-created pane gives back the original tree. */
  lemma {:induction false} RemoveUndoesSplit(
    node: PaneNode, paneId: Id, direction: Direction, newPaneId: Id, newHost: Host, next: Id)
    requires UniquePanes(node) && paneId in PaneIds(node) && newPaneId !in PaneIds(node)
    ensures RemoveLeaf(SplitLeaf(node, paneId, direction, newPaneId, newHost, next).0, newPaneId) == Some(node)
  {
    match node
    case Leaf(_, _) =>
    case Split(_, _, _, a, b) =>
      var (a', next') := SplitLeaf(a, paneId, direction, newPaneId, newHost, next);
      var (b', _) := SplitLeaf(b, paneId, direction, newPaneId, newHost, next');
      FindLeafFinds(a', newPaneId);
      FindLeafFinds(b', newPaneId);
      if paneId in PaneIds(a) {
        SplitElsewhere(b, paneId, direction, newPaneId, newHost, next');
        SplitPanes(a, paneId, direction, newPaneId, newHost, next);
        RemoveUndoesSplit(a, paneId, direction, newPaneId, newHost, next);
      } else {
        SplitElsewhere(a, paneId, direction, newPaneId, newHost, next);
        SplitPanes(b, paneId, direction, newPaneId, newHost, next);
        RemoveUndoesSplit(b, paneId, direction, newPaneId, newHost, next);
      }
  }
}
