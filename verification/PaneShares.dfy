/** How a split shares out its place (src/lib/paneTree.ts:143-169), in pixels and without naming the functions that
    compute it, and what dragging a divider does (src/components/common/PaneResizeDivider.tsx). */
module PaneShares {
  import opened Wrappers
  import opened PaneTree
  import opened PaneGeometry

  lemma {:induction false} RoomyFits(node: PaneNode, rect: Rect)
    requires Roomy(node, rect)
    ensures DividersFit(node, rect)
  {
    if node.Split? {
      RoomyFits(node.a, ARect(node.direction, ASize(node.direction, node.ratio, rect), rect));
      RoomyFits(node.b, BRect(node.direction, ASize(node.direction, node.ratio, rect), rect));
    }
  }

  /** The part of a split's layout that comes from its first child, and the part from its second. */
  function FirstPart(node: PaneNode, rect: Rect): Layout
    requires node.Split?
  {
    LayoutOrder(node, rect);
    var layout, n := ComputeLayout(node, rect), CountLeaves(node.a);
    Layout(layout.leaves[..n], layout.dividers[..n - 1])
  }

  function SecondPart(node: PaneNode, rect: Rect): Layout
    requires node.Split?
  {
    LayoutOrder(node, rect);
    var layout, n := ComputeLayout(node, rect), CountLeaves(node.a);
    Layout(layout.leaves[n..], layout.dividers[n..])
  }

  /** The split's own divider stands between those of its children. */
  function OwnDivider(node: PaneNode, rect: Rect): DividerLayout
    requires node.Split?
  {
    LayoutOrder(node, rect);
    ComputeLayout(node, rect).dividers[CountLeaves(node.a) - 1]
  }

  lemma PartsAre(node: PaneNode, rect: Rect)
    requires node.Split?
    ensures var d, aSize := node.direction, ASize(node.direction, node.ratio, rect);
            && FirstPart(node, rect) == ComputeLayout(node.a, ARect(d, aSize, rect))
            && SecondPart(node, rect) == ComputeLayout(node.b, BRect(d, aSize, rect))
            && OwnDivider(node, rect)
               == DividerLayout(node.splitId, d, node.ratio, AvailablePx(d, rect), DividerRect(d, aSize, rect))
  {
    var d, aSize := node.direction, ASize(node.direction, node.ratio, rect);
    LayoutOrder(node, rect);
    LayoutOrder(node.a, ARect(d, aSize, rect));
    LayoutOrder(node.b, BRect(d, aSize, rect));
  }

  /** In which of the three parts of a place a point of it lies. */
  lemma PartAt(direction: Direction, aSize: real, rect: Rect, x: real, y: real)
    requires Contains(rect, x, y) && Total(direction, rect) >= 6.0 && 0.0 <= aSize <= Total(direction, rect) - 6.0
    ensures var along := if direction.Row? then x - rect.left else y - rect.top;
            && Contains(ARect(direction, aSize, rect), x, y) == (along < aSize)
            && Contains(DividerRect(direction, aSize, rect), x, y) == (aSize <= along < aSize + 6.0)
            && Contains(BRect(direction, aSize, rect), x, y) == (aSize + 6.0 <= along)
  {
  }

  /** Where the dividers below have room, the parts hit a point as often as their places do. */
  lemma PartHits(node: PaneNode, rect: Rect, x: real, y: real)
    requires node.Split? && RatiosWithin(node, 0.0, 1.0) && Roomy(node, rect) && rect.width >= 0.0 && rect.height >= 0.0
    ensures var d, aSize := node.direction, ASize(node.direction, node.ratio, rect);
            && Hits(FirstPart(node, rect), x, y) == In(ARect(d, aSize, rect), x, y)
            && Hits(SecondPart(node, rect), x, y) == In(BRect(d, aSize, rect), x, y)
  {
    var d, aSize := node.direction, ASize(node.direction, node.ratio, rect);
    var aRect, bRect := ARect(d, aSize, rect), BRect(d, aSize, rect);
    PartsAre(node, rect);
    PartsCover(d, aSize, rect, x, y);
    RoomyFits(node.a, aRect);
    RoomyFits(node.b, bRect);
    LayoutCovers(node.a, aRect, x, y);
    LayoutCovers(node.b, bRect, x, y);
  }

  lemma ShareIs(direction: Direction, ratio: real, rect: Rect)
    requires Total(direction, rect) >= 6.0 && 0.0 <= ratio <= 1.0
    ensures ASize(direction, ratio, rect) == (Total(direction, rect) - 6.0) * ratio
    ensures 0.0 <= ASize(direction, ratio, rect) <= Total(direction, rect) - 6.0
  {
    assert AvailablePx(direction, rect) == Total(direction, rect) - 6.0;
  }

  /** In which part of a split's layout a point of its place lies, given the share. */
  ghost predicate SharedOut(node: PaneNode, rect: Rect, x: real, y: real, share: real)
    requires node.Split?
  {
    var along := if node.direction.Row? then x - rect.left else y - rect.top;
    && Hits(FirstPart(node, rect), x, y) == (if along < share then 1 else 0)
    && Contains(OwnDivider(node, rect).rect, x, y) == (share <= along < share + 6.0)
    && Hits(SecondPart(node, rect), x, y) == (if share + 6.0 <= along then 1 else 0)
  }

  lemma SharedOutAt(node: PaneNode, rect: Rect, x: real, y: real, share: real)
    requires node.Split? && 0.0 <= share <= Total(node.direction, rect) - 6.0 && Contains(rect, x, y)
    requires Hits(FirstPart(node, rect), x, y) == In(ARect(node.direction, share, rect), x, y)
    requires Hits(SecondPart(node, rect), x, y) == In(BRect(node.direction, share, rect), x, y)
    requires OwnDivider(node, rect).rect == DividerRect(node.direction, share, rect)
    ensures SharedOut(node, rect, x, y, share)
  {
    PartAt(node.direction, share, rect, x, y);
  }

  /** Along its direction, a split with room for its divider gives its first child the share of the room that its ratio
      says, from the left or the top, then 6 pixels to the divider, and the rest to its second child: every point of
      the place lies once in the part it should. */
  lemma SplitShares(node: PaneNode, rect: Rect, x: real, y: real, share: real)
    requires node.Split? && RatiosWithin(node, 0.0, 1.0) && Roomy(node, rect) && rect.width >= 0.0 && rect.height >= 0.0
    requires share == (if node.direction.Row? then rect.width - 6.0 else rect.height - 6.0) * node.ratio
    requires Contains(rect, x, y)
    ensures SharedOut(node, rect, x, y, share)
  {
    ShareIs(node.direction, node.ratio, rect);
    assert share == ASize(node.direction, node.ratio, rect);
    PartsAre(node, rect);
    PartHits(node, rect, x, y);
    SharedOutAt(node, rect, x, y, share);
  }

  /** The divider says whose it is, which way it lies, and how many pixels it shares out. */
  lemma DividerSays(node: PaneNode, rect: Rect)
    requires node.Split?
    ensures var divider, size := OwnDivider(node, rect), if node.direction.Row? then rect.width else rect.height;
            && divider.splitId == node.splitId && divider.direction == node.direction && divider.ratio == node.ratio
            && divider.availablePx == (if size < 6.0 then 0.0 else size - 6.0)
  {
    PartsAre(node, rect);
  }

  /** Shares of one size that differ by a part of it, in pixels. */
  lemma ShareMoves(size: real, ratio: real, delta: real)
    requires size > 0.0
    ensures size * (ratio + delta / size) == size * ratio + delta
  {
    var part := delta / size;
    assert part * size == delta;
    assert size * (ratio + part) == size * ratio + size * part;
  }

  /** Dragging a divider by some pixels sets the ratio by their part of what it shares out: within the limits the
      divider follows the mouse exactly. */
  lemma DividerFollowsMouse(node: PaneNode, rect: Rect, delta: real)
    requires node.Split? && OwnDivider(node, rect).availablePx > 0.0
    requires 0.15 <= node.ratio + delta / OwnDivider(node, rect).availablePx <= 0.85
    ensures var before := OwnDivider(node, rect);
            var dragged := ResizeSplit(node, node.splitId, before.ratio + delta / before.availablePx);
            && dragged.Split?
            && OwnDivider(dragged, rect).rect
               == (if node.direction.Row? then before.rect.(left := before.rect.left + delta)
                   else before.rect.(top := before.rect.top + delta))
  {
    var available := AvailablePx(node.direction, rect);
    PartsAre(node, rect);
    var dragged := ResizeSplit(node, node.splitId, node.ratio + delta / available);
    PartsAre(dragged, rect);
    ShareMoves(available, node.ratio, delta);
  }
}
