/** Applying a named or textual layout to a window (`layout.rs`): the pane tree
    is rebuilt from scratch around the panes the window already has. */
module LayoutApply {
  import opened Text
  import opened PaneTree
  import opened LayoutText

  // ----- presets -----

  /** `equal_sizes`: equal percentages, the last one taking the remainder. */
  function EqualSizes(n: nat): (r: seq<U16>)
    ensures |r| == n
  {
    if n == 0 then [] else seq(n - 1, _ => 100 / n) + [100 / n + (100 - 100 / n * n)]
  }

  lemma EqualSizesSum(n: nat)
    requires n > 0
    ensures Sum(EqualSizes(n)) == 100
  {
    hide Sum;
    var base, last: nat := 100 / n, 100 / n + (100 - 100 / n * n);
    SumRepeat(n - 1, base);
    SumConcat(seq(n - 1, _ => base), [last]);
    SumSplits([last]);
    RemainderClosesGap(n, base);
  }

  lemma RemainderClosesGap(n: nat, base: nat)
    requires n > 0
    ensures (n - 1) * base + (base + (100 - base * n)) == 100
  {}

  lemma DividesHundred(n: nat)
    requires n > 0
    ensures n * (100 / n) == 100 <==> 100 % n == 0
  {}

  lemma {:induction false} SumConcat(a: seq<nat>, b: seq<nat>)
    ensures Sum(a + b) == Sum(a) + Sum(b)
  {
    if a == [] {
      assert a + b == b;
    } else {
      assert (a + b)[1..] == a[1..] + b;
      SumConcat(a[1..], b);
    }
  }

  function AsLeaves(panes: seq<Usize>): (r: seq<Node>)
    ensures |r| == |panes|
  {
    if panes == [] then [] else [Leaf(panes[0])] + AsLeaves(panes[1..])
  }

  lemma {:induction false} LeavesOfLeaves(panes: seq<Usize>)
    ensures LeavesOfAll(AsLeaves(panes)) == panes
    ensures forall c <- AsLeaves(panes) :: c.Leaf?
  {
    if panes != [] {
      LeavesOfLeaves(panes[1..]);
      assert AsLeaves(panes)[1..] == AsLeaves(panes[1..]);
    }
  }

  function Even(kind: LayoutKind, panes: seq<Usize>): Node {
    Split(kind, EqualSizes(|panes|), AsLeaves(panes))
  }

  /** The main pane's percentage: the option capped at 95, or 60 when unset. */
  function MainPercent(option: U16): (r: U16)
    ensures 0 < r <= 95
  {
    if option > 0 then Min(option, 95) else 60
  }

  /** A main pane and the others, shared out evenly the other way. */
  function MainAndRest(kind: LayoutKind, other: LayoutKind, percent: U16, panes: seq<Usize>): Node
    requires |panes| >= 2 && percent <= 100
  {
    var rest := panes[1..];
    Split(kind, [percent, 100 - percent],
          [Leaf(panes[0]), if |rest| == 1 then Leaf(rest[0]) else Even(other, rest)])
  }

  /** `build_tiled`: a balanced binary tree of splits. */
  function Tiled(panes: seq<Usize>): Node
    requires panes != []
    decreases |panes|
  {
    if |panes| == 1 then Leaf(panes[0])
    else if |panes| == 2 then Split(Horizontal, [50, 50], AsLeaves(panes))
    else
      var mid := |panes| / 2;
      Split(Vertical, [50, 50], [Tiled(panes[..mid]), Tiled(panes[mid..])])
  }

  // ----- layout strings -----

  function CountLeaves(l: LayoutNode): nat
    decreases l, 0
  {
    match l
    case Pane(_, _) => 1
    case Box(_, _, children) => CountAll(children)
  }

  function CountAll(ls: seq<LayoutNode>): nat
    decreases ls, 1
  {
    if ls == [] then 0 else CountLeaves(ls[0]) + CountAll(ls[1..])
  }

  /** The children's extents along the direction of their split. */
  function ExtentsOf(kind: LayoutKind, ls: seq<LayoutNode>): (r: seq<nat>)
    ensures |r| == |ls|
  {
    if ls == [] then [] else [Extent(kind.Horizontal?, ls[0].area)] + ExtentsOf(kind, ls[1..])
  }

  function Floors(dims: seq<nat>, total: nat): (r: seq<nat>)
    requires total > 0
    ensures |r| == |dims|
  {
    if dims == [] then [] else [Share(100, dims[0], total)] + Floors(dims[1..], total)
  }

  /** Percentages that fall short of 100 are made up by the last child. */
  function TopUp(s: seq<nat>): (r: seq<nat>)
    ensures |r| == |s|
  {
    if s != [] && Sum(s) < 100 then s[|s| - 1 := s[|s| - 1] + (100 - Sum(s))] else s
  }

  function Percentages(kind: LayoutKind, ls: seq<LayoutNode>): (r: seq<nat>)
    ensures |r| == |ls|
  {
    var total := Sum(ExtentsOf(kind, ls));
    if total == 0 then seq(|ls|, _ => 100 / Max(|ls|, 1)) else TopUp(Floors(ExtentsOf(kind, ls), total))
  }

  lemma {:induction false} FloorsFit(dims: seq<nat>, total: nat, running: nat, done: nat)
    requires total > 0 && Fits(running, total, 100, done)
    ensures Fits(running + Sum(Floors(dims, total)), total, 100, done + Sum(dims))
  {
    hide Fits, Share, Sum;
    if dims == [] {
      NothingSums();
    } else {
      ShareFits(running, total, 100, done, dims[0]);
      FloorsFit(dims[1..], total, running + Share(100, dims[0], total), done + dims[0]);
      SumSplits(dims);
      SumSplits(Floors(dims, total));
      assert Floors(dims, total)[1..] == Floors(dims[1..], total);
    }
  }

  lemma NothingSums()
    ensures Sum([]) == 0
  {}

  /** The percentages of a split add up to 100 exactly when its children have a
      positive total extent, or when there are children and their number
      divides 100. */
  lemma PercentagesSum(kind: LayoutKind, ls: seq<LayoutNode>)
    ensures Sum(Percentages(kind, ls)) == 100 <==>
              Sum(ExtentsOf(kind, ls)) > 0 || (ls != [] && 100 % |ls| == 0)
    ensures forall i :: 0 <= i < |ls| ==> Percentages(kind, ls)[i] <= 100
  {
    var dims := ExtentsOf(kind, ls);
    var total := Sum(dims);
    hide Sum, Floors, TopUp;
    if ls == [] {
      NothingSums();
      assert Percentages(kind, ls) == [];
    } else if total == 0 {
      SumRepeat(|ls|, 100 / |ls|);
      DividesHundred(|ls|);
      QuotientBound(|ls|);
    } else {
      FloorsTopUp(dims);
      BelowSum(TopUp(Floors(dims, total)));
    }
  }

  lemma QuotientBound(n: nat)
    requires n > 0
    ensures 100 / n <= 100
  {}

  lemma FloorsTopUp(dims: seq<nat>)
    requires Sum(dims) > 0
    ensures Sum(TopUp(Floors(dims, Sum(dims)))) == 100
  {
    hide Fits, Share;
    var total := Sum(dims);
    var f := Floors(dims, total);
    FitsNothing(total);
    FloorsFit(dims, total, 0, 0);
    RunningFits(Sum(f), total, 100, total);
    if Sum(f) < 100 { SumUpdate(f, |f| - 1, f[|f| - 1] + (100 - Sum(f))); }
  }

  lemma FitsNothing(total: nat)
    ensures Fits(0, total, 100, 0)
  {}

  lemma {:induction false} BelowSum(s: seq<nat>)
    ensures forall i :: 0 <= i < |s| ==> s[i] <= Sum(s)
  {
    if s != [] { BelowSum(s[1..]); }
  }

  datatype Filled = Filled(node: Option<Node>, rest: seq<Usize>)
  datatype FilledAll = FilledAll(nodes: Option<seq<Node>>, rest: seq<Usize>)

  /** `layout_node_to_node`: panes are taken from the front in leaf order, and
      `rest` is what stays in the vector, also when the panes run out. */
  function Fill(l: LayoutNode, panes: seq<Usize>): Filled
    decreases l, 0
  {
    match l
    case Pane(_, _) => if panes == [] then Filled(None, []) else Filled(Some(Leaf(panes[0])), panes[1..])
    case Box(kind, _, children) =>
      var r := FillAll(children, panes);
      if r.nodes.None? then Filled(None, r.rest)
      else
        PercentagesSum(kind, children);
        Filled(Some(Split(kind, Percentages(kind, children), r.nodes.value)), r.rest)
  }

  function FillAll(ls: seq<LayoutNode>, panes: seq<Usize>): FilledAll
    decreases ls, 1
  {
    if ls == [] then FilledAll(Some([]), panes)
    else
      var first := Fill(ls[0], panes);
      if first.node.None? then FilledAll(None, first.rest)
      else
        var others := FillAll(ls[1..], first.rest);
        FilledAll(if others.nodes.None? then None else Some([first.node.value] + others.nodes.value), others.rest)
  }

  function WithFirst(nodes: seq<Node>, r: FilledAll): FilledAll {
    FilledAll(if r.nodes.None? then None else Some(nodes + r.nodes.value), r.rest)
  }

  lemma FillAllUnfolds(ls: seq<LayoutNode>, i: nat, panes: seq<Usize>, nodes: seq<Node>)
    requires i < |ls|
    ensures var first := Fill(ls[i], panes);
            WithFirst(nodes, FillAll(ls[i..], panes)) ==
              if first.node.None? then FilledAll(None, first.rest)
              else WithFirst(nodes + [first.node.value], FillAll(ls[i + 1..], first.rest))
  {
    hide Fill;
    assert ls[i..][0] == ls[i] && ls[i..][1..] == ls[i + 1..];
    var first := Fill(ls[i], panes);
    if first.node.Some? {
      var others := FillAll(ls[i + 1..], first.rest);
      if others.nodes.Some? { Associate(nodes, [first.node.value], others.nodes.value); }
    }
  }

  lemma NothingFilled(panes: seq<Usize>)
    ensures FillAll([], panes) == FilledAll(Some([]), panes)
  {}

  /** `layout_node_to_node`, with its loop over the children. */
  method FillNode(l: LayoutNode, panes: seq<Usize>) returns (node: Option<Node>, rest: seq<Usize>)
    ensures Filled(node, rest) == Fill(l, panes)
    decreases l
  {
    hide FillAll;
    match l {
      case Pane(_, _) => {
        if panes == [] { return None, []; }
        node, rest := Some(Leaf(panes[0])), panes[1..];
      }
      case Box(kind, _, children) => {
        PercentagesSum(kind, children);
        var sizes := Percentages(kind, children);
        var nodes: seq<Node> := [];
        rest := panes;
        assert children[0..] == children;
        NothingFilled(panes);
        assert WithFirst([], FillAll(children, panes)) == FillAll(children, panes) by {
          var all := FillAll(children, panes);
          assert all.nodes.Some? ==> [] + all.nodes.value == all.nodes.value;
        }
        for i := 0 to |children|
          invariant WithFirst(nodes, FillAll(children[i..], rest)) == FillAll(children, panes)
        {
          FillAllUnfolds(children, i, rest, nodes);
          var child;
          child, rest := FillNode(children[i], rest);
          if child.None? { return None, rest; }
          nodes := nodes + [child.value];
        }
        NothingFilled(rest);
        assert children[|children|..] == [] && nodes + [] == nodes;
        node := Some(Split(kind, sizes, nodes));
      }
    }
  }

  /** With enough panes the tree holds the first ones in order and the others
      are left over; with too few, every pane has been taken and no tree results. */
  lemma {:induction false} FillTakesPanes(l: LayoutNode, panes: seq<Usize>)
    ensures var k := CountLeaves(l); var r := Fill(l, panes);
            if k <= |panes|
            then r.node.Some? && Leaves(r.node.value) == panes[..k] && r.rest == panes[k..]
            else r.node.None? && r.rest == []
    decreases l, 0
  {
    if l.Box? { FillAllTakesPanes(l.children, panes); }
  }

  lemma {:induction false} FillAllTakesPanes(ls: seq<LayoutNode>, panes: seq<Usize>)
    ensures var k := CountAll(ls); var r := FillAll(ls, panes);
            if k <= |panes|
            then r.nodes.Some? && |r.nodes.value| == |ls|
                 && LeavesOfAll(r.nodes.value) == panes[..k] && r.rest == panes[k..]
            else r.nodes.None? && r.rest == []
    decreases ls, 1
  {
    hide Fill, Leaves, CountLeaves;
    if ls != [] {
      var k := CountLeaves(ls[0]);
      FillTakesPanes(ls[0], panes);
      if k <= |panes| {
        var rest, more := panes[k..], CountAll(ls[1..]);
        FillAllTakesPanes(ls[1..], rest);
        if k + more <= |panes| {
          var node, others := Fill(ls[0], panes).node.value, FillAll(ls[1..], rest).nodes.value;
          assert ([node] + others)[1..] == others;
          assert panes[..k + more] == panes[..k] + rest[..more] && panes[k + more..] == rest[more..];
        }
      }
    }
  }

  /** One size per child, and the sizes of every split add up to 100. */
  ghost predicate WellSized(node: Node) {
    node.Split? ==>
      && |node.sizes| == |node.children|
      && Sum(node.sizes) == 100
      && forall c <- node.children :: WellSized(c)
  }

  /** Every split of the descriptor has positive total extent, or at least a
      number of children that divides 100. */
  ghost predicate GoodExtents(l: LayoutNode) {
    l.Box? ==>
      && (Sum(ExtentsOf(l.kind, l.children)) > 0 || (l.children != [] && 100 % |l.children| == 0))
      && forall c <- l.children :: GoodExtents(c)
  }

  /** A tree filled from a layout string is well sized exactly when the layout's
      extents allow it. */
  lemma {:induction false} FillWellSized(l: LayoutNode, panes: seq<Usize>)
    requires Fill(l, panes).node.Some?
    ensures WellSized(Fill(l, panes).node.value) <==> GoodExtents(l)
    decreases l, 0
  {
    if l.Box? {
      hide Percentages;
      FillAllWellSized(l.children, panes);
      PercentagesSum(l.kind, l.children);
    }
  }

  lemma {:induction false} FillAllWellSized(ls: seq<LayoutNode>, panes: seq<Usize>)
    requires FillAll(ls, panes).nodes.Some?
    ensures |FillAll(ls, panes).nodes.value| == |ls|
    ensures (forall c <- FillAll(ls, panes).nodes.value :: WellSized(c)) <==> (forall l <- ls :: GoodExtents(l))
    decreases ls, 1
  {
    hide Fill, GoodExtents, WellSized;
    if ls != [] {
      FillWellSized(ls[0], panes);
      FillAllWellSized(ls[1..], Fill(ls[0], panes).rest);
      var first, others := Fill(ls[0], panes).node.value, FillAll(ls[1..], Fill(ls[0], panes).rest).nodes.value;
      assert forall c :: c in [first] + others <==> c == first || c in others;
      assert forall l :: l in ls <==> l == ls[0] || l in ls[1..];
    }
  }

  // ----- apply_layout -----

  function ToLower(s: string): string {
    seq(|s|, i requires 0 <= i < |s| => if 'A' <= s[i] <= 'Z' then (s[i] as int + 32) as char else s[i])
  }

  datatype Preset = EvenHorizontal | EvenVertical | MainHorizontal | MainVertical | TiledLayout | NotAPreset

  function PresetOf(name: string): Preset {
    var n := ToLower(name);
    if n == "even-horizontal" || n == "even-h" then EvenHorizontal
    else if n == "even-vertical" || n == "even-v" then EvenVertical
    else if n == "main-horizontal" || n == "main-h" then MainHorizontal
    else if n == "main-vertical" || n == "main-v" then MainVertical
    else if n == "tiled" then TiledLayout
    else NotAPreset
  }

  const PLACEHOLDER := Split(Horizontal, [], [])

  /** The tree a window ends with. */
  function Applied(root: Node, name: string, mainHeight: U16, mainWidth: U16): Node {
    var panes := Leaves(root);
    if |panes| < 2 then (if panes == [] then PLACEHOLDER else Leaf(panes[0]))
    else match PresetOf(name)
      case EvenHorizontal => Even(Horizontal, panes)
      case EvenVertical => Even(Vertical, panes)
      case MainHorizontal => MainAndRest(Vertical, Horizontal, MainPercent(mainHeight), panes)
      case MainVertical => MainAndRest(Horizontal, Vertical, MainPercent(mainWidth), panes)
      case TiledLayout => Tiled(panes)
      case NotAPreset =>
        match ParseLayoutString(name)
        case None => Even(Horizontal, panes)
        case Some(l) =>
          var r := Fill(l, panes);
          // A failed fill has emptied the vector the fallback is built from.
          if r.node.Some? then r.node.value else Split(Horizontal, EqualSizes(|panes|), AsLeaves(r.rest))
  }

  /** `first_leaf_path`. */
  function FirstLeafPath(node: Node): Option<seq<nat>>
    decreases node, 0
  {
    match node
    case Leaf(_) => Some([])
    case Split(_, _, children) => FirstLeafAmong(children, 0)
  }

  function FirstLeafAmong(nodes: seq<Node>, i: nat): Option<seq<nat>>
    decreases nodes, 1
  {
    if nodes == [] then None
    else match FirstLeafPath(nodes[0])
      case Some(p) => Some([i] + p)
      case None => FirstLeafAmong(nodes[1..], i + 1)
  }

  /** `active_pane`: the pane a path leads to; an index past the last child is
      read as the last child. */
  function PaneAt(node: Node, path: seq<nat>): Option<Usize>
    decreases node
  {
    match node
    case Leaf(id) => Some(id)
    case Split(_, _, children) =>
      if path == [] || children == [] then None
      else PaneAt(children[Min(path[0], |children| - 1)], path[1..])
  }

  lemma {:induction false} FirstLeafFound(node: Node)
    ensures FirstLeafPath(node).Some? <==> Leaves(node) != []
    ensures FirstLeafPath(node).Some? ==> PaneAt(node, FirstLeafPath(node).value) == Some(Leaves(node)[0])
    decreases node, 0
  {
    if node.Split? {
      FirstLeafFoundAmong(node.children, 0);
    }
  }

  /** Path `p` into `nodes`, counted from `i`, ends at pane `id`. */
  ghost predicate LeadsTo(nodes: seq<Node>, i: nat, p: seq<nat>, id: Usize) {
    p != [] && i <= p[0] < i + |nodes| && PaneAt(nodes[p[0] - i], p[1..]) == Some(id)
  }

  lemma LeadsToHere(nodes: seq<Node>, i: nat, p: seq<nat>, id: Usize)
    requires nodes != [] && PaneAt(nodes[0], p) == Some(id)
    ensures LeadsTo(nodes, i, [i] + p, id)
  {
    hide PaneAt;
    assert ([i] + p)[1..] == p;
  }

  lemma LeadsToLater(nodes: seq<Node>, i: nat, p: seq<nat>, id: Usize)
    requires nodes != [] && LeadsTo(nodes[1..], i + 1, p, id)
    ensures LeadsTo(nodes, i, p, id)
  {
    hide PaneAt;
  }

  lemma {:induction false} FirstLeafFoundAmong(nodes: seq<Node>, i: nat)
    ensures var p := FirstLeafAmong(nodes, i);
            && (p.Some? <==> LeavesOfAll(nodes) != [])
            && (p.Some? ==> LeadsTo(nodes, i, p.value, LeavesOfAll(nodes)[0]))
    decreases nodes, 1
  {
    hide FirstLeafPath, PaneAt, Leaves, LeadsTo;
    if nodes != [] {
      FirstLeafFound(nodes[0]);
      FirstLeafFoundAmong(nodes[1..], i + 1);
      var here, later := FirstLeafPath(nodes[0]), FirstLeafAmong(nodes[1..], i + 1);
      if here.Some? {
        LeadsToHere(nodes, i, here.value, Leaves(nodes[0])[0]);
      } else if later.Some? {
        LeadsToLater(nodes, i, later.value, LeavesOfAll(nodes[1..])[0]);
      }
    }
  }

  class Window {
    var root: Node
    var activePath: seq<nat>

    /** `apply_layout`: collects the panes and rebuilds the tree around them. */
    method ApplyLayout(layout: string, mainPaneHeight: U16, mainPaneWidth: U16)
      modifies this
      ensures root == Applied(old(root), layout, mainPaneHeight, mainPaneWidth)
      ensures activePath == if |Leaves(old(root))| < 2 then old(activePath)
                            else if FirstLeafPath(root).Some? then FirstLeafPath(root).value else []
    {
      var leaves := Leaves(root);
      root := PLACEHOLDER;
      var paneCount := |leaves|;
      if paneCount < 2 {
        if leaves != [] { root := Leaf(leaves[0]); }
        return;
      }
      match PresetOf(layout) {
        case EvenHorizontal => root := Even(Horizontal, leaves);
        case EvenVertical => root := Even(Vertical, leaves);
        case MainHorizontal => root := MainAndRest(Vertical, Horizontal, MainPercent(mainPaneHeight), leaves);
        case MainVertical => root := MainAndRest(Horizontal, Vertical, MainPercent(mainPaneWidth), leaves);
        case TiledLayout => root := Tiled(leaves);
        case NotAPreset =>
          var parsed := ParseLayoutString(layout);
          var newRoot: Option<Node> := None;
          if parsed.Some? {
            newRoot, leaves := FillNode(parsed.value, leaves);
          }
          if newRoot.Some? {
            root := newRoot.value;
          } else {
            root := Split(Horizontal, EqualSizes(paneCount), AsLeaves(leaves));
          }
      }
      var first := FirstLeafPath(root);
      activePath := if first.Some? then first.value else [];
    }
  }

  // ----- conservation -----

  lemma EvenConserves(kind: LayoutKind, panes: seq<Usize>)
    ensures Leaves(Even(kind, panes)) == panes
    ensures panes != [] ==> WellSized(Even(kind, panes))
  {
    LeavesOfLeaves(panes);
    if panes != [] { EqualSizesSum(|panes|); }
  }

  lemma PairConserves(kind: LayoutKind, percent: U16, a: Node, b: Node)
    requires percent <= 100
    ensures Leaves(Split(kind, [percent, 100 - percent], [a, b])) == Leaves(a) + Leaves(b)
    ensures WellSized(a) && WellSized(b) ==> WellSized(Split(kind, [percent, 100 - percent], [a, b]))
  {
    assert [a, b][1..] == [b] && [b][1..] == [];
    assert LeavesOfAll([b]) == Leaves(b) + LeavesOfAll([]);
    SumSplits([percent, 100 - percent]);
    assert [percent, 100 - percent][1..] == [100 - percent];
  }

  lemma MainConserves(kind: LayoutKind, other: LayoutKind, percent: U16, panes: seq<Usize>)
    requires |panes| >= 2 && percent <= 100
    ensures Leaves(MainAndRest(kind, other, percent, panes)) == panes
    ensures WellSized(MainAndRest(kind, other, percent, panes))
  {
    var rest := panes[1..];
    EvenConserves(other, rest);
    PairConserves(kind, percent, Leaf(panes[0]), if |rest| == 1 then Leaf(rest[0]) else Even(other, rest));
    assert [panes[0]] + rest == panes;
  }

  lemma {:induction false} TiledConserves(panes: seq<Usize>)
    requires panes != []
    ensures Leaves(Tiled(panes)) == panes && WellSized(Tiled(panes))
    decreases |panes|
  {
    if |panes| == 2 {
      assert AsLeaves(panes) == [Leaf(panes[0]), Leaf(panes[1])];
      PairConserves(Horizontal, 50, Leaf(panes[0]), Leaf(panes[1]));
    } else if |panes| > 2 {
      var mid := |panes| / 2;
      TiledConserves(panes[..mid]);
      TiledConserves(panes[mid..]);
      PairConserves(Vertical, 50, Tiled(panes[..mid]), Tiled(panes[mid..]));
      assert panes[..mid] + panes[mid..] == panes;
    }
  }

  /** Every preset keeps the panes in order and builds splits with one size per
      child adding up to 100. */
  lemma PresetConserves(root: Node, name: string, mainHeight: U16, mainWidth: U16)
    requires PresetOf(name) != NotAPreset || ParseLayoutString(name).None?
    ensures var r := Applied(root, name, mainHeight, mainWidth);
            Leaves(r) == Leaves(root) && (Leaves(root) != [] ==> WellSized(r))
  {
    hide PresetOf, ParseLayoutString, Even, MainAndRest, Tiled, WellSized;
    var panes := Leaves(root);
    if |panes| < 2 {
      SmallTrees(panes);
    } else {
      EvenConserves(Horizontal, panes);
      EvenConserves(Vertical, panes);
      MainConserves(Vertical, Horizontal, MainPercent(mainHeight), panes);
      MainConserves(Horizontal, Vertical, MainPercent(mainWidth), panes);
      TiledConserves(panes);
    }
  }

  lemma SmallTrees(panes: seq<Usize>)
    requires |panes| < 2
    ensures panes == [] ==> Leaves(PLACEHOLDER) == panes
    ensures |panes| == 1 ==> Leaves(Leaf(panes[0])) == panes && WellSized(Leaf(panes[0]))
  {}

  /** A layout string keeps the panes exactly when it has one leaf per pane: with
      fewer leaves the surplus panes are dropped, with more leaves all of them are. */
  lemma LayoutStringConserves(root: Node, name: string, mainHeight: U16, mainWidth: U16)
    requires |Leaves(root)| >= 2
    ensures PresetOf(name) == NotAPreset && ParseLayoutString(name).Some? ==>
            var panes := Leaves(root);
            var k := CountLeaves(ParseLayoutString(name).value);
            var r := Applied(root, name, mainHeight, mainWidth);
            && Leaves(r) == (if k <= |panes| then panes[..k] else [])
            && (Leaves(r) == panes <==> k == |panes|)
            && (k == |panes| ==> (WellSized(r) <==> GoodExtents(ParseLayoutString(name).value)))
  {
    hide PresetOf, ParseLayoutString, Fill, WellSized, GoodExtents;
    if PresetOf(name) == NotAPreset && ParseLayoutString(name).Some? {
      var l, panes := ParseLayoutString(name).value, Leaves(root);
      FillTakesPanes(l, panes);
      if CountLeaves(l) <= |panes| {
        FillWellSized(l, panes);
      } else {
        assert AsLeaves(Fill(l, panes).rest) == [];
      }
    }
  }

  /** After a preset has been applied the active path leads to what was the
      window's first pane. */
  lemma FocusAfterPreset(root: Node, name: string, mainHeight: U16, mainWidth: U16)
    requires |Leaves(root)| >= 2
    requires PresetOf(name) != NotAPreset || ParseLayoutString(name).None?
    ensures var r := Applied(root, name, mainHeight, mainWidth);
            FirstLeafPath(r).Some? && PaneAt(r, FirstLeafPath(r).value) == Some(Leaves(root)[0])
  {
    hide Applied, PaneAt, FirstLeafPath;
    PresetConserves(root, name, mainHeight, mainWidth);
    FirstLeafFound(Applied(root, name, mainHeight, mainWidth));
  }

  /** Another window's layout string keeps as many panes as that window has, the first
      ones, and with too few panes here it keeps none. */
  lemma AnotherLayoutString(root: Node, other: Node, area: Rect, mainHeight: U16, mainWidth: U16)
    requires |Leaves(root)| >= 2
    ensures var n := |Leaves(other)|;
            Leaves(Applied(root, WindowLayout(other, area), mainHeight, mainWidth))
            == if n <= |Leaves(root)| then Leaves(root)[..n] else []
  {
    hide Applied, PresetOf, ParseLayoutString;
    LayoutStringIsNoPreset(other, area);
    WindowLayoutRoundTrip(other, area);
    DescriptionCount(other, area);
    LayoutStringConserves(root, WindowLayout(other, area), mainHeight, mainWidth);
  }

  /** Two trees that differ in nothing but sizes. */
  ghost predicate SameShape(a: Node, b: Node)
    decreases a
  {
    match a
    case Leaf(_) => b == a
    case Split(kind, _, children) =>
      && b.Split? && b.kind == kind && |b.children| == |children|
      && forall i :: 0 <= i < |children| ==> SameShape(children[i], b.children[i])
  }

  /** Filling a tree's own description with its panes restores the tree. */
  lemma {:induction false} FillRestores(node: Node, area: Rect, rest: seq<Usize>)
    ensures var r := Fill(Describe(node, area), Leaves(node) + rest);
            r.node.Some? && SameShape(node, r.node.value) && r.rest == rest
    decreases node, 0
  {
    if node.Split? { FillAllRestores(node.children, ChildRects(node, area), rest); }
  }

  lemma {:induction false} FillAllRestores(nodes: seq<Node>, rects: seq<Rect>, rest: seq<Usize>)
    requires |nodes| == |rects|
    ensures var r := FillAll(DescribeAll(nodes, rects), LeavesOfAll(nodes) + rest);
            && r.nodes.Some? && |r.nodes.value| == |nodes| && r.rest == rest
            && forall i :: 0 <= i < |nodes| ==> SameShape(nodes[i], r.nodes.value[i])
    decreases nodes, 1
  {
    hide Fill, Describe, SameShape, Leaves;
    if nodes != [] {
      var more := LeavesOfAll(nodes[1..]) + rest;
      FillRestores(nodes[0], rects[0], more);
      FillAllRestores(nodes[1..], rects[1..], rest);
      Associate(Leaves(nodes[0]), LeavesOfAll(nodes[1..]), rest);
      assert DescribeAll(nodes, rects)[1..] == DescribeAll(nodes[1..], rects[1..]);
      var r := FillAll(DescribeAll(nodes, rects), LeavesOfAll(nodes) + rest);
      assert r.nodes.value[1..] == FillAll(DescribeAll(nodes[1..], rects[1..]), more).nodes.value;
      forall i | 0 < i < |nodes| ensures SameShape(nodes[i], r.nodes.value[i]) {
        assert nodes[i] == nodes[1..][i - 1] && r.nodes.value[i] == r.nodes.value[1..][i - 1];
      }
    }
  }

  /** A window's own layout string, applied to it, restores the tree up to sizes: the
      same nesting, the same kinds of split, every pane in its place. */
  lemma OwnLayoutStringRestores(node: Node, area: Rect, mainHeight: U16, mainWidth: U16)
    requires |Leaves(node)| >= 2
    ensures var r := Applied(node, WindowLayout(node, area), mainHeight, mainWidth);
            SameShape(node, r) && Leaves(r) == Leaves(node)
  {
    hide Fill, Describe, PresetOf, SameShape;
    LayoutStringIsNoPreset(node, area);
    WindowLayoutRoundTrip(node, area);
    DescriptionCount(node, area);
    LayoutStringConserves(node, WindowLayout(node, area), mainHeight, mainWidth);
    FillRestores(node, area, []);
    assert Leaves(node) + [] == Leaves(node);
  }

  lemma LayoutStringIsNoPreset(node: Node, area: Rect)
    ensures PresetOf(WindowLayout(node, area)) == NotAPreset
  {
    hide PresetOf, Checksum, Body, HexChar;
    assert |Hex4(Checksum(Body(node, area)))| == 4;
    CommaIsNoPreset(WindowLayout(node, area));
  }

  /** No preset name has a comma. */
  lemma CommaIsNoPreset(name: string)
    requires |name| > 4 && name[4] == ','
    ensures PresetOf(name) == NotAPreset
  {
    assert ToLower(name)[4] == ',';
    hide ToLower;
  }

  lemma {:induction false} DescriptionCount(node: Node, area: Rect)
    ensures CountLeaves(Describe(node, area)) == |Leaves(node)|
    decreases node, 0
  {
    if node.Split? { DescriptionCounts(node.children, ChildRects(node, area)); }
  }

  lemma {:induction false} DescriptionCounts(nodes: seq<Node>, rects: seq<Rect>)
    requires |nodes| == |rects|
    ensures CountAll(DescribeAll(nodes, rects)) == |LeavesOfAll(nodes)|
    decreases nodes, 1
  {
    if nodes != [] {
      DescriptionCount(nodes[0], rects[0]);
      DescriptionCounts(nodes[1..], rects[1..]);
      assert DescribeAll(nodes, rects)[1..] == DescribeAll(nodes[1..], rects[1..]);
    }
  }
}
