/** The pane tree of a window and the way an area is divided among the children
    of a split (`tree.rs`). */
module PaneTree {
  import opened Text

  datatype LayoutKind = Horizontal | Vertical

  datatype Rect = Rect(x: U16, y: U16, width: U16, height: U16)

  datatype Node =
    | Leaf(id: Usize)
    | Split(kind: LayoutKind, sizes: seq<U16>, children: seq<Node>)

  /** `collect_leaves`: the panes of a tree, left to right. */
  function Leaves(node: Node): seq<Usize>
    decreases node, 0
  {
    match node
    case Leaf(id) => [id]
    case Split(_, _, children) => LeavesOfAll(children)
  }

  function LeavesOfAll(nodes: seq<Node>): seq<Usize>
    decreases nodes, 1
  {
    if nodes == [] then [] else Leaves(nodes[0]) + LeavesOfAll(nodes[1..])
  }

  lemma {:induction false} LeavesOfAllConcat(a: seq<Node>, b: seq<Node>)
    ensures LeavesOfAll(a + b) == LeavesOfAll(a) + LeavesOfAll(b)
  {
    hide Leaves;
    if a == [] {
      assert a + b == b;
    } else {
      assert (a + b)[1..] == a[1..] + b;
      LeavesOfAllConcat(a[1..], b);
    }
  }

  function Sum(s: seq<nat>): nat { if s == [] then 0 else s[0] + Sum(s[1..]) }

  lemma SumSplits(s: seq<nat>)
    requires s != []
    ensures Sum(s) == s[0] + Sum(s[1..])
    ensures |s| == 1 ==> Sum(s) == s[0]
  {}

  lemma {:induction false} SumUpdate(s: seq<nat>, i: nat, v: nat)
    requires i < |s|
    ensures Sum(s[i := v]) == Sum(s) - s[i] + v
  {
    if i > 0 {
      SumUpdate(s[1..], i - 1, v);
      assert s[i := v][1..] == s[1..][i - 1 := v];
    } else {
      assert s[i := v][1..] == s[1..];
    }
  }

  lemma {:induction false} SumRepeat(n: nat, v: nat)
    ensures Sum(seq(n, _ => v)) == n * v
  {
    if n > 0 {
      SumRepeat(n - 1, v);
      assert seq(n, _ => v)[1..] == seq(n - 1, _ => v);
      assert n * v == v + (n - 1) * v;
    }
  }

  // ----- split_with_gaps -----

  /** Width a pseudoconsole never goes below; heights may shrink to one row. */
  const MIN_PTY_COLS: nat := 2

  function MinCell(horizontal: bool): nat { if horizontal then MIN_PTY_COLS else 1 }

  function Share(avail: nat, size: nat, total: nat): nat
    requires total > 0
  {
    avail * size / total
  }

  /** Proportional shares of `avail`; the last child takes what is left. */
  function Shares(sizes: seq<nat>, avail: nat, total: nat, running: nat): (r: seq<nat>)
    requires total > 0
    ensures |r| == |sizes|
  {
    if |sizes| == 0 then []
    else if |sizes| == 1 then [SatSub(avail, running)]
    else
      var s := Share(avail, sizes[0], total);
      [s] + Shares(sizes[1..], avail, total, running + s)
  }

  /** `running` cells given to children worth `done` out of `total`. */
  ghost predicate Fits(running: nat, total: nat, avail: nat, done: nat) {
    running * total <= avail * done
  }

  lemma RunningFits(running: nat, total: nat, avail: nat, done: nat)
    requires 0 < total && done <= total && Fits(running, total, avail, done)
    ensures running <= avail
  {
    assert avail * done <= avail * total;
    assert (avail - running) * total == avail * total - running * total;
  }

  lemma ShareFits(running: nat, total: nat, avail: nat, done: nat, size: nat)
    requires 0 < total && Fits(running, total, avail, done)
    ensures Fits(running + Share(avail, size, total), total, avail, done + size)
  {
    var s := Share(avail, size, total);
    assert s * total <= avail * size;
    assert (running + s) * total == running * total + s * total;
    assert avail * (done + size) == avail * done + avail * size;
  }

  /** Shares never overrun: the first children round down and the last one
      closes the difference, so the total is exactly what was available. */
  lemma {:induction false} SharesFill(sizes: seq<nat>, avail: nat, total: nat, running: nat, done: nat)
    requires total > 0 && sizes != []
    requires done + Sum(sizes) == total
    requires Fits(running, total, avail, done)
    ensures running <= avail
    ensures Sum(Shares(sizes, avail, total, running)) == avail - running
  {
    hide Fits, Share, Sum;
    var shares := Shares(sizes, avail, total, running);
    SumSplits(sizes);
    SumSplits(shares);
    RunningFits(running, total, avail, done);
    if |sizes| > 1 {
      ShareFits(running, total, avail, done, sizes[0]);
      var s := Share(avail, sizes[0], total);
      SharesFill(sizes[1..], avail, total, running + s, done + sizes[0]);
      assert shares[1..] == Shares(sizes[1..], avail, total, running + s);
    }
  }

  /** Every child but the last gets its proportion, rounded down. */
  lemma {:induction false} SharesAre(sizes: seq<nat>, avail: nat, total: nat, running: nat, i: nat)
    requires total > 0 && i + 1 < |sizes|
    ensures Shares(sizes, avail, total, running)[i] == avail * sizes[i] / total
  {
    if i > 0 { SharesAre(sizes[1..], avail, total, running + Share(avail, sizes[0], total), i - 1); }
  }

  /** And the last one no less than that. */
  lemma {:induction false} LastShareReaches(sizes: seq<nat>, avail: nat, total: nat, running: nat, done: nat)
    requires total > 0 && sizes != []
    requires done + Sum(sizes) == total
    requires Fits(running, total, avail, done)
    ensures Shares(sizes, avail, total, running)[|sizes| - 1] >= avail * sizes[|sizes| - 1] / total
  {
    hide Fits, Share, Sum;
    SumSplits(sizes);
    if |sizes| == 1 {
      RestReaches(running, total, avail, done);
    } else {
      ShareFits(running, total, avail, done, sizes[0]);
      LastShareReaches(sizes[1..], avail, total, running + Share(avail, sizes[0], total), done + sizes[0]);
    }
  }

  lemma RestReaches(running: nat, total: nat, avail: nat, done: nat)
    requires 0 < total && done <= total && Fits(running, total, avail, done)
    ensures SatSub(avail, running) >= avail * (total - done) / total
  {
    RunningFits(running, total, avail, done);
    var rest, want := avail - running, avail * (total - done);
    assert rest * total == avail * total - running * total;
    assert want == avail * total - avail * done;
    QuotientAtMost(want, total, rest);
  }

  lemma QuotientAtMost(n: nat, d: nat, q: nat)
    requires d > 0 && n <= q * d
    ensures n / d <= q
  {
    var p := n / d;
    assert p * d <= n;
    assert (q - p) * d == q * d - p * d;
  }

  /** Index of the first child below the minimum, or the length. */
  function FirstShort(s: seq<nat>, min: nat): (i: nat)
    ensures i <= |s|
    ensures forall j :: 0 <= j < i ==> s[j] >= min
    ensures i < |s| ==> s[i] < min
  {
    if s == [] || s[0] < min then 0 else 1 + FirstShort(s[1..], min)
  }

  /** Index of the first largest child. */
  function Largest(s: seq<nat>): (i: nat)
    requires s != []
    ensures i < |s|
    ensures forall j :: 0 <= j < |s| ==> s[j] <= s[i]
    ensures forall j :: 0 <= j < i ==> s[j] < s[i]
  {
    if |s| == 1 then 0
    else
      var i := 1 + Largest(s[1..]);
      if s[0] >= s[i] then 0 else i
  }

  function Deficit(s: seq<nat>, min: nat): nat {
    if s == [] then 0 else SatSub(min, s[0]) + Deficit(s[1..], min)
  }

  lemma {:induction false} DeficitUpdate(s: seq<nat>, min: nat, i: nat, v: nat)
    requires i < |s|
    ensures Deficit(s[i := v], min) == Deficit(s, min) - SatSub(min, s[i]) + SatSub(min, v)
  {
    if i > 0 {
      DeficitUpdate(s[1..], min, i - 1, v);
      assert s[i := v][1..] == s[1..][i - 1 := v];
    } else {
      assert s[i := v][1..] == s[1..];
    }
  }

  /** Take a cell from the largest child for the first one below the minimum,
      until nobody is short or nobody can spare one. */
  function Steal(s: seq<nat>, min: nat): (r: seq<nat>)
    ensures |r| == |s|
    decreases Deficit(s, min)
  {
    var short := FirstShort(s, min);
    if short == |s| then s
    else
      var big := Largest(s);
      if s[big] <= min then s
      else
        DeficitUpdate(s, min, big, s[big] - 1);
        DeficitUpdate(s[big := s[big] - 1], min, short, s[short] + 1);
        Steal(s[big := s[big] - 1][short := s[short] + 1], min)
  }

  lemma {:induction false} SumAtMost(s: seq<nat>, bound: nat)
    requires forall i :: 0 <= i < |s| ==> s[i] <= bound
    ensures Sum(s) <= |s| * bound
  {
    if s != [] {
      SumAtMost(s[1..], bound);
      assert |s| * bound == bound + |s[1..]| * bound;
    }
  }

  lemma {:induction false} BelowFloor(s: seq<nat>, min: nat, short: nat)
    requires short < |s| && s[short] < min
    requires forall i :: 0 <= i < |s| ==> s[i] <= min
    ensures Sum(s) < |s| * min
  {
    SumUpdate(s, short, s[short] + 1);
    SumAtMost(s[short := s[short] + 1], min);
  }

  lemma OneSteal(s: seq<nat>, min: nat, big: nat, short: nat)
    requires big < |s| && short < |s| && s[short] < min < s[big]
    ensures var t := s[big := s[big] - 1][short := s[short] + 1];
            Sum(t) == Sum(s) && Deficit(t, min) == Deficit(s, min) - 1
  {
    var t := s[big := s[big] - 1];
    SumUpdate(s, big, s[big] - 1);
    SumUpdate(t, short, s[short] + 1);
    DeficitUpdate(s, min, big, s[big] - 1);
    DeficitUpdate(t, min, short, s[short] + 1);
  }

  /** Stealing moves cells without creating or losing any, and whenever there is
      room for it (`floor` cells in all) every child ends at the minimum or above. */
  lemma {:induction false} StealKeepsAndFills(s: seq<nat>, min: nat, floor: nat)
    requires floor == |s| * min
    ensures Sum(Steal(s, min)) == Sum(s)
    ensures Sum(s) >= floor ==> forall i :: 0 <= i < |s| ==> Steal(s, min)[i] >= min
    decreases Deficit(s, min)
  {
    var short := FirstShort(s, min);
    if short < |s| {
      var big := Largest(s);
      if s[big] <= min {
        BelowFloor(s, min, short);
      } else {
        OneSteal(s, min, big, short);
        StealKeepsAndFills(s[big := s[big] - 1][short := s[short] + 1], min, floor);
      }
    }
  }

  function ChildExtents(horizontal: bool, sizes: seq<U16>, avail: nat): (r: seq<nat>)
    requires Sum(sizes) > 0
    ensures |r| == |sizes|
  {
    var shares := Shares(sizes, avail, Sum(sizes), 0);
    if avail >= |sizes| * MinCell(horizontal) then Steal(shares, MinCell(horizontal)) else shares
  }

  /** Coordinates are 16-bit and wrap. */
  function Wrap(n: nat): U16 { n % 0x1_0000 }

  function Place(horizontal: bool, extents: seq<nat>, area: Rect, offset: nat): (r: seq<Rect>)
    ensures |r| == |extents|
  {
    if extents == [] then []
    else
      var here := if horizontal
                  then Rect(Wrap(area.x + offset), area.y, Wrap(extents[0]), area.height)
                  else Rect(area.x, Wrap(area.y + offset), area.width, Wrap(extents[0]));
      [here] + Place(horizontal, extents[1..], area, offset + extents[0] + 1)
  }

  function Extent(horizontal: bool, area: Rect): nat { if horizontal then area.width else area.height }
  function Origin(horizontal: bool, area: Rect): nat { if horizontal then area.x else area.y }

  /** `split_with_gaps`: one rectangle per child, one separator cell between
      neighbours. */
  function SplitWithGaps(horizontal: bool, sizes: seq<U16>, area: Rect): (r: seq<Rect>)
    ensures |r| == |sizes|
  {
    if |sizes| == 0 then []
    else if |sizes| == 1 then [area]
    else if Sum(sizes) == 0 then seq(|sizes|, _ => area)
    else
      var avail := SatSub(Extent(horizontal, area), |sizes| - 1);
      Place(horizontal, ChildExtents(horizontal, sizes, avail), area, 0)
  }

  /** The rectangles run from `start` to `end` along the split direction with
      exactly one cell between neighbours, and span the area across it. */
  ghost predicate Tiles(horizontal: bool, rects: seq<Rect>, area: Rect, start: nat, end: nat) {
    && rects != []
    && Origin(horizontal, rects[0]) == start
    && Origin(!horizontal, rects[0]) == Origin(!horizontal, area)
    && Extent(!horizontal, rects[0]) == Extent(!horizontal, area)
    && var next := start + Extent(horizontal, rects[0]);
       if |rects| == 1 then next == end else Tiles(horizontal, rects[1..], area, next + 1, end)
  }

  lemma {:induction false} PlaceTiles(horizontal: bool, extents: seq<nat>, area: Rect, offset: nat)
    requires extents != []
    requires Origin(horizontal, area) + offset + Sum(extents) + |extents| - 1 < 0x1_0000
    ensures var start := Origin(horizontal, area) + offset;
            Tiles(horizontal, Place(horizontal, extents, area, offset), area,
                  start, start + Sum(extents) + |extents| - 1)
  {
    var r := Place(horizontal, extents, area, offset);
    hide Sum;
    var next := offset + extents[0] + 1;
    SumSplits(extents);
    assert r[1..] == Place(horizontal, extents[1..], area, next);
    assert Extent(horizontal, r[0]) == extents[0];
    if |extents| > 1 {
      PlaceTiles(horizontal, extents[1..], area, next);
    }
  }

  /** The children share out every available cell, and when there is room for it
      no child is below the minimum. */
  lemma ExtentsFill(horizontal: bool, sizes: seq<U16>, avail: nat)
    requires Sum(sizes) > 0
    ensures Sum(ChildExtents(horizontal, sizes, avail)) == avail
    ensures avail >= |sizes| * MinCell(horizontal) ==>
              forall i :: 0 <= i < |sizes| ==> ChildExtents(horizontal, sizes, avail)[i] >= MinCell(horizontal)
  {
    hide Shares, Steal;
    SharesFill(sizes, avail, Sum(sizes), 0, 0);
    StealKeepsAndFills(Shares(sizes, avail, Sum(sizes), 0), MinCell(horizontal), |sizes| * MinCell(horizontal));
  }

  lemma NothingToSteal(s: seq<nat>, min: nat)
    requires forall i :: 0 <= i < |s| ==> s[i] >= min
    ensures Steal(s, min) == s
  {}

  /** When every child's proportion reaches the minimum (two columns or one row), or there
      is no room for the minimum, every child but the last gets its proportion of the
      cells, rounded down. */
  lemma ExtentsAre(horizontal: bool, sizes: seq<U16>, avail: nat)
    requires sizes != [] && Sum(sizes) > 0
    requires var min := if horizontal then 2 else 1;
             avail < |sizes| * min || forall i :: 0 <= i < |sizes| ==> avail * sizes[i] / Sum(sizes) >= min
    ensures forall i :: 0 <= i < |sizes| - 1 ==>
              ChildExtents(horizontal, sizes, avail)[i] == avail * sizes[i] / Sum(sizes)
  {
    hide Shares, Steal, Sum;
    var n, total := |sizes| - 1, Sum(sizes);
    var shares := Shares(sizes, avail, total, 0);
    forall i | 0 <= i < n ensures shares[i] == avail * sizes[i] / total { SharesAre(sizes, avail, total, 0, i); }
    LastShareReaches(sizes, avail, total, 0, 0);
    if avail >= |sizes| * MinCell(horizontal) {
      NothingToSteal(shares, MinCell(horizontal));
    }
  }

  /** When the separators fit, the children of a split tile its area exactly. */
  lemma SplitTilesArea(horizontal: bool, sizes: seq<U16>, area: Rect)
    requires |sizes| >= 2 && Sum(sizes) > 0
    requires Extent(horizontal, area) >= |sizes| - 1
    requires Origin(horizontal, area) + Extent(horizontal, area) < 0x1_0000
    ensures var start := Origin(horizontal, area);
            Tiles(horizontal, SplitWithGaps(horizontal, sizes, area), area,
                  start, start + Extent(horizontal, area))
  {
    hide ChildExtents, Place, Tiles;
    var avail := SatSub(Extent(horizontal, area), |sizes| - 1);
    ExtentsFill(horizontal, sizes, avail);
    PlaceTiles(horizontal, ChildExtents(horizontal, sizes, avail), area, 0);
  }
}
