/** Where the panes of a layout string are: the rectangles that a reader of the string
    sees, stated on the rectangles themselves (`format.rs`, `control.rs`, `tree.rs`). */
module LayoutGeometry {
  import opened Text
  import opened PaneTree
  import opened LayoutText

  /** From left to right over the whole area, with one column between neighbours. */
  ghost predicate InRow(areas: seq<Rect>, area: Rect) {
    && areas != [] && areas[0].x == area.x
    && (forall i :: 0 <= i < |areas| ==> areas[i].y == area.y && areas[i].height == area.height)
    && (forall i :: 0 < i < |areas| ==> areas[i].x == areas[i - 1].x + areas[i - 1].width + 1)
    && areas[|areas| - 1].x + areas[|areas| - 1].width == area.x + area.width
  }

  /** From top to bottom over the whole area, with one row between neighbours. */
  ghost predicate InColumn(areas: seq<Rect>, area: Rect) {
    && areas != [] && areas[0].y == area.y
    && (forall i :: 0 <= i < |areas| ==> areas[i].x == area.x && areas[i].width == area.width)
    && (forall i :: 0 < i < |areas| ==> areas[i].y == areas[i - 1].y + areas[i - 1].height + 1)
    && areas[|areas| - 1].y + areas[|areas| - 1].height == area.y + area.height
  }

  lemma {:induction false} TilesInRow(rects: seq<Rect>, area: Rect, start: nat, end: nat)
    requires Tiles(true, rects, area, start, end)
    ensures rects[0].x == start && rects[|rects| - 1].x + rects[|rects| - 1].width == end
    ensures forall i :: 0 <= i < |rects| ==> rects[i].y == area.y && rects[i].height == area.height
    ensures forall i :: 0 < i < |rects| ==> rects[i].x == rects[i - 1].x + rects[i - 1].width + 1
  {
    if |rects| > 1 {
      var rest := rects[1..];
      TilesInRow(rest, area, start + rects[0].width + 1, end);
      forall i | 0 < i < |rects|
        ensures rects[i].y == area.y && rects[i].height == area.height
        ensures rects[i].x == rects[i - 1].x + rects[i - 1].width + 1
      {
        assert rects[i] == rest[i - 1];
        if i > 1 { assert rects[i - 1] == rest[i - 2]; }
      }
    }
  }

  lemma {:induction false} TilesInColumn(rects: seq<Rect>, area: Rect, start: nat, end: nat)
    requires Tiles(false, rects, area, start, end)
    ensures rects[0].y == start && rects[|rects| - 1].y + rects[|rects| - 1].height == end
    ensures forall i :: 0 <= i < |rects| ==> rects[i].x == area.x && rects[i].width == area.width
    ensures forall i :: 0 < i < |rects| ==> rects[i].y == rects[i - 1].y + rects[i - 1].height + 1
  {
    if |rects| > 1 {
      var rest := rects[1..];
      TilesInColumn(rest, area, start + rects[0].height + 1, end);
      forall i | 0 < i < |rects|
        ensures rects[i].x == area.x && rects[i].width == area.width
        ensures rects[i].y == rects[i - 1].y + rects[i - 1].height + 1
      {
        assert rects[i] == rest[i - 1];
        if i > 1 { assert rects[i - 1] == rest[i - 2]; }
      }
    }
  }

  /** The sizes a split goes by: its own if there is one per child, else equal ones. */
  function SizesUsed(sizes: seq<U16>, n: nat): (r: seq<U16>)
    requires n > 0
    ensures |r| == n
  {
    if |sizes| == n then sizes else seq(n, _ => 100 / n)
  }

  /** A split of `n` children can be laid out in `area`: a child has a size, and the
      separators fit. */
  ghost predicate Roomy(kind: LayoutKind, sizes: seq<U16>, area: Rect) {
    && (exists i :: 0 <= i < |sizes| && sizes[i] > 0)
    && match kind
       case Horizontal => |sizes| - 1 <= area.width && area.x + area.width < 0x1_0000
       case Vertical => |sizes| - 1 <= area.height && area.y + area.height < 0x1_0000
  }

  /** Every child but the last has its proportion of the cells, rounded down, when all
      proportions reach the minimum of two columns or one row, or the minimum does not fit. */
  ghost predicate InProportion(kind: LayoutKind, sizes: seq<U16>, areas: seq<Rect>, area: Rect) {
    var n, total := |sizes|, Sum(sizes);
    && |areas| == n && total > 0
    && match kind
       case Horizontal =>
         var cells := area.width - (n - 1);
         cells >= 0 && (cells < n * 2 || forall i :: 0 <= i < n ==> cells * sizes[i] / total >= 2) ==>
           forall i :: 0 <= i < n - 1 ==> areas[i].width == cells * sizes[i] / total
       case Vertical =>
         var cells := area.height - (n - 1);
         cells >= 0 && (cells < n || forall i :: 0 <= i < n ==> cells * sizes[i] / total >= 1) ==>
           forall i :: 0 <= i < n - 1 ==> areas[i].height == cells * sizes[i] / total
  }

  function Areas(ls: seq<LayoutNode>): (r: seq<Rect>)
    ensures |r| == |ls| && forall i :: 0 <= i < |ls| ==> r[i] == ls[i].area
  {
    seq(|ls|, i requires 0 <= i < |ls| => ls[i].area)
  }

  /** A layout shows the tree: the same panes and kinds of split; an only child has the
      whole area of its split, and more children share it out along the split's kind. */
  ghost predicate Shows(l: LayoutNode, node: Node)
    decreases node
  {
    match node
    case Leaf(id) => l.Pane? && l.id == Some(id)
    case Split(kind, sizes, children) =>
      && l.Box? && l.kind == kind && |l.children| == |children|
      && (|children| == 1 ==> l.children[0].area == l.area)
      && (|children| >= 2 && Roomy(kind, SizesUsed(sizes, |children|), l.area) ==>
            && (kind.Horizontal? ==> InRow(Areas(l.children), l.area))
            && (kind.Vertical? ==> InColumn(Areas(l.children), l.area))
            && InProportion(kind, SizesUsed(sizes, |children|), Areas(l.children), l.area))
      && forall i :: 0 <= i < |children| ==> Shows(l.children[i], children[i])
  }

  lemma {:induction false} SomeSize(sizes: seq<U16>)
    requires exists i :: 0 <= i < |sizes| && sizes[i] > 0
    ensures Sum(sizes) > 0
  {
    var i :| 0 <= i < |sizes| && sizes[i] > 0;
    if i > 0 {
      assert sizes[1..][i - 1] > 0;
      SomeSize(sizes[1..]);
    }
  }

  /** The rectangles of a split, along its own kind. */
  lemma SplitShows(kind: LayoutKind, sizes: seq<U16>, area: Rect)
    requires |sizes| >= 2 && Roomy(kind, sizes, area)
    ensures var areas := SplitWithGaps(kind.Horizontal?, sizes, area);
            && (kind.Horizontal? ==> InRow(areas, area)) && (kind.Vertical? ==> InColumn(areas, area))
            && InProportion(kind, sizes, areas, area)
  {
    hide Sum, ChildExtents, Place;
    var areas := SplitWithGaps(kind.Horizontal?, sizes, area);
    SomeSize(sizes);
    SplitTilesArea(kind.Horizontal?, sizes, area);
    var avail := (if kind.Horizontal? then area.width else area.height) - (|sizes| - 1);
    Proportions(kind, sizes, area, avail);
    if kind.Horizontal? {
      TilesInRow(areas, area, area.x, area.x + area.width);
    } else {
      TilesInColumn(areas, area, area.y, area.y + area.height);
    }
  }

  lemma {:induction false} PlacedExtents(horizontal: bool, extents: seq<nat>, area: Rect, offset: nat, i: nat)
    requires i < |extents| && extents[i] < 0x1_0000
    ensures var r := Place(horizontal, extents, area, offset)[i];
            (if horizontal then r.width else r.height) == extents[i]
  {
    if i > 0 { PlacedExtents(horizontal, extents[1..], area, offset + extents[0] + 1, i - 1); }
  }

  lemma {:induction false} PartOfSum(s: seq<nat>, i: nat)
    requires i < |s|
    ensures s[i] <= Sum(s)
  {
    if i > 0 { PartOfSum(s[1..], i - 1); }
  }

  lemma Proportions(kind: LayoutKind, sizes: seq<U16>, area: Rect, avail: nat)
    requires |sizes| >= 2 && Sum(sizes) > 0
    requires avail == (if kind.Horizontal? then area.width else area.height) - (|sizes| - 1)
    ensures InProportion(kind, sizes, SplitWithGaps(kind.Horizontal?, sizes, area), area)
  {
    hide Sum, ChildExtents, Place;
    var n, total, h := |sizes|, Sum(sizes), kind.Horizontal?;
    var min := if h then 2 else 1;
    var areas, extents := SplitWithGaps(h, sizes, area), ChildExtents(h, sizes, avail);
    if avail < n * min || forall i :: 0 <= i < n ==> avail * sizes[i] / total >= min {
      ExtentsAre(h, sizes, avail);
      ExtentsFill(h, sizes, avail);
      forall i | 0 <= i < n - 1
        ensures (if h then areas[i].width else areas[i].height) == avail * sizes[i] / total
      {
        PartOfSum(extents, i);
        PlacedExtents(h, extents, area, 0, i);
      }
    }
  }

  lemma {:induction false} DescriptionShows(node: Node, area: Rect)
    ensures Describe(node, area).area == area && Shows(Describe(node, area), node)
    decreases node, 0
  {
    hide SplitWithGaps, InRow, InColumn, InProportion, Roomy;
    if node.Split? {
      var kind, sizes, children := node.kind, node.sizes, node.children;
      var l, rects := Describe(node, area), ChildRects(node, area);
      DescriptionsShow(children, rects);
      assert Areas(l.children) == rects;
      if |children| == 1 {
        OnlyRect(kind, EffectiveSizes(sizes, 1), area);
      } else if |children| >= 2 {
        var used := SizesUsed(sizes, |children|);
        assert EffectiveSizes(sizes, |children|) == used;
        if Roomy(kind, used, area) { SplitShows(kind, used, area); }
      }
    }
  }

  lemma OnlyRect(kind: LayoutKind, sizes: seq<U16>, area: Rect)
    requires |sizes| == 1
    ensures SplitWithGaps(kind.Horizontal?, sizes, area) == [area]
  {}

  lemma {:induction false} DescriptionsShow(nodes: seq<Node>, rects: seq<Rect>)
    requires |nodes| == |rects|
    ensures var ls := DescribeAll(nodes, rects);
            forall i :: 0 <= i < |nodes| ==> ls[i].area == rects[i] && Shows(ls[i], nodes[i])
    decreases nodes, 1
  {
    hide Describe, Shows;
    if nodes != [] {
      DescriptionShows(nodes[0], rects[0]);
      DescriptionsShow(nodes[1..], rects[1..]);
    }
  }

  /** A window's layout string reads back as a layout that has the window's area and shows
      its tree: side by side where a split is horizontal, one above the other where it is
      vertical, recursively. */
  lemma WindowLayoutShows(node: Node, area: Rect)
    ensures var l := ParseLayoutString(WindowLayout(node, area));
            l.Some? && l.value.area == area && Shows(l.value, node)
  {
    hide Shows;
    WindowLayoutRoundTrip(node, area);
    DescriptionShows(node, area);
  }

  /** So does the control-mode string of a tree without an empty split. */
  lemma ControlLayoutShows(node: Node, area: Rect)
    requires NoEmptySplit(node)
    ensures var l := ParseLayoutString(ControlLayout(node, area));
            l.Some? && l.value.area == area && Shows(l.value, node)
  {
    hide Shows;
    ControlLayoutRoundTrip(node, area);
    DescriptionShows(node, area);
  }

  /** Two panes side by side in 80 columns. */
  lemma SideBySide()
    ensures SplitWithGaps(true, [50, 50], Rect(0, 0, 80, 24)) == [Rect(0, 0, 39, 24), Rect(40, 0, 40, 24)]
  {
    var areas := SplitWithGaps(true, [50, 50], Rect(0, 0, 80, 24));
    assert [50, 50][0] > 0 && [50, 50][1..] == [50] && [50][1..] == [];
    SplitShows(Horizontal, [50, 50], Rect(0, 0, 80, 24));
    assert Sum([50, 50]) == 100;
    assert 79 * 50 / 100 == 39;
  }
}
