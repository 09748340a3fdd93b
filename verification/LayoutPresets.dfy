/** What the layout names mean, name by name, and what sizes a layout string gives
    (`layout.rs`): laws about `apply_layout` stated on the resulting tree. */
module LayoutPresets {
  import opened Text
  import opened PaneTree
  import opened LayoutText
  import opened LayoutApply

  /** The name in any letter case. */
  ghost predicate Spells(name: string, lower: string) {
    && |name| == |lower|
    && forall i :: 0 <= i < |name| ==>
         name[i] == lower[i] || ('A' <= name[i] <= 'Z' && name[i] as int + 32 == lower[i] as int)
  }

  lemma SpelledLower(name: string, lower: string)
    requires forall i :: 0 <= i < |lower| ==> lower[i] == '-' || 'a' <= lower[i] <= 'z'
    ensures ToLower(name) == lower <==> Spells(name, lower)
  {
    if Spells(name, lower) {
      assert ToLower(name) == lower;
    }
    if ToLower(name) == lower {
      forall i | 0 <= i < |name|
        ensures name[i] == lower[i] || ('A' <= name[i] <= 'Z' && name[i] as int + 32 == lower[i] as int)
      {
        assert ToLower(name)[i] == lower[i];
      }
    }
  }

  // ----- shapes -----

  /** One split with a pane per child; all sizes are 100 divided by their number, and the
      last one has what is missing to 100. */
  ghost predicate Flat(node: Node, kind: LayoutKind, panes: seq<Usize>) {
    var n := |panes|;
    && n > 0 && node.Split? && node.kind == kind && |node.children| == n && |node.sizes| == n
    && (forall i :: 0 <= i < n ==> node.children[i] == Leaf(panes[i]))
    && (forall i :: 0 <= i < n - 1 ==> node.sizes[i] == 100 / n)
    && node.sizes[n - 1] == 100 - (n - 1) * (100 / n)
  }

  /** The first pane with `percent`, and the others flat along `other`. */
  ghost predicate MainFirst(node: Node, kind: LayoutKind, other: LayoutKind, percent: nat, panes: seq<Usize>) {
    && |panes| >= 2 && node.Split? && node.kind == kind && |node.children| == 2 && |node.sizes| == 2
    && node.sizes[0] == percent && node.sizes[1] == 100 - percent
    && node.children[0] == Leaf(panes[0])
    && (if |panes| == 2 then node.children[1] == Leaf(panes[1]) else Flat(node.children[1], other, panes[1..]))
  }

  /** Halves down to pairs: pairs side by side, the rest one above the other. */
  ghost predicate Halved(node: Node, panes: seq<Usize>)
    decreases node
  {
    if |panes| == 0 then false
    else if |panes| == 1 then node == Leaf(panes[0])
    else
      && node.Split? && |node.children| == 2 && |node.sizes| == 2 && node.sizes[0] == node.sizes[1] == 50
      && (if |panes| == 2 then
            node.kind == Horizontal && node.children[0] == Leaf(panes[0]) && node.children[1] == Leaf(panes[1])
          else
            && node.kind == Vertical
            && Halved(node.children[0], panes[..|panes| / 2]) && Halved(node.children[1], panes[|panes| / 2..]))
  }

  function MainShare(option: U16): nat { if option == 0 then 60 else if option > 95 then 95 else option }

  lemma {:induction false} LeavesAt(panes: seq<Usize>, i: nat)
    requires i < |panes|
    ensures AsLeaves(panes)[i] == Leaf(panes[i])
  {
    if i > 0 { LeavesAt(panes[1..], i - 1); }
  }

  lemma EvenIsFlat(kind: LayoutKind, panes: seq<Usize>)
    requires panes != []
    ensures Flat(Even(kind, panes), kind, panes)
  {
    forall i | 0 <= i < |panes| ensures AsLeaves(panes)[i] == Leaf(panes[i]) { LeavesAt(panes, i); }
    var n := |panes|;
    assert n * (100 / n) == (n - 1) * (100 / n) + 100 / n;
  }

  lemma MainIsFirst(kind: LayoutKind, other: LayoutKind, percent: U16, panes: seq<Usize>)
    requires |panes| >= 2 && percent <= 100
    ensures MainFirst(MainAndRest(kind, other, percent, panes), kind, other, percent, panes)
  {
    hide Flat, Even;
    EvenIsFlat(other, panes[1..]);
  }

  lemma {:induction false} TiledIsHalved(panes: seq<Usize>)
    requires panes != []
    ensures Halved(Tiled(panes), panes)
    decreases |panes|
  {
    if |panes| == 2 {
      LeavesAt(panes, 0);
      LeavesAt(panes, 1);
    } else if |panes| > 2 {
      TiledIsHalved(panes[..|panes| / 2]);
      TiledIsHalved(panes[|panes| / 2..]);
    }
  }

  /** What each of the nine names does to a window of two panes or more. */
  lemma NamesMean(root: Node, name: string, mainHeight: U16, mainWidth: U16)
    requires |Leaves(root)| >= 2
    ensures var panes, r := Leaves(root), Applied(root, name, mainHeight, mainWidth);
            && (Spells(name, "even-horizontal") || Spells(name, "even-h") ==> Flat(r, Horizontal, panes))
            && (Spells(name, "even-vertical") || Spells(name, "even-v") ==> Flat(r, Vertical, panes))
            && (Spells(name, "main-horizontal") || Spells(name, "main-h") ==>
                  MainFirst(r, Vertical, Horizontal, MainShare(mainHeight), panes))
            && (Spells(name, "main-vertical") || Spells(name, "main-v") ==>
                  MainFirst(r, Horizontal, Vertical, MainShare(mainWidth), panes))
            && (Spells(name, "tiled") ==> Halved(r, panes))
  {
    hide Even, MainAndRest, Tiled, Flat, MainFirst, Halved, Spells, ToLower;
    var panes := Leaves(root);
    PresetNames(name);
    EvenIsFlat(Horizontal, panes);
    EvenIsFlat(Vertical, panes);
    MainIsFirst(Vertical, Horizontal, MainPercent(mainHeight), panes);
    MainIsFirst(Horizontal, Vertical, MainPercent(mainWidth), panes);
    TiledIsHalved(panes);
  }

  ghost predicate IsName(name: string) {
    || Spells(name, "even-horizontal") || Spells(name, "even-h") || Spells(name, "even-vertical")
    || Spells(name, "even-v") || Spells(name, "main-horizontal") || Spells(name, "main-h")
    || Spells(name, "main-vertical") || Spells(name, "main-v") || Spells(name, "tiled")
  }

  lemma PresetNames(name: string)
    ensures ToLower(name) == "even-horizontal" <==> Spells(name, "even-horizontal")
    ensures ToLower(name) == "even-h" <==> Spells(name, "even-h")
    ensures ToLower(name) == "even-vertical" <==> Spells(name, "even-vertical")
    ensures ToLower(name) == "even-v" <==> Spells(name, "even-v")
    ensures ToLower(name) == "main-horizontal" <==> Spells(name, "main-horizontal")
    ensures ToLower(name) == "main-h" <==> Spells(name, "main-h")
    ensures ToLower(name) == "main-vertical" <==> Spells(name, "main-vertical")
    ensures ToLower(name) == "main-v" <==> Spells(name, "main-v")
    ensures ToLower(name) == "tiled" <==> Spells(name, "tiled")
  {
    hide ToLower, Spells;
    SpelledLower(name, "even-horizontal");
    SpelledLower(name, "even-h");
    SpelledLower(name, "even-vertical");
    SpelledLower(name, "even-v");
    SpelledLower(name, "main-horizontal");
    SpelledLower(name, "main-h");
    SpelledLower(name, "main-vertical");
    SpelledLower(name, "main-v");
    SpelledLower(name, "tiled");
  }

  lemma NoPresetExactlyWhen(name: string)
    ensures PresetOf(name) == NotAPreset <==> !IsName(name)
  {
    hide ToLower, Spells;
    PresetNames(name);
  }

  // ----- sizes from a layout string -----

  /** The children's widths in a horizontal split, their heights in a vertical one. */
  function Along(kind: LayoutKind, ls: seq<LayoutNode>): (r: seq<nat>)
    ensures |r| == |ls|
  {
    seq(|ls|, i requires 0 <= i < |ls| => if kind == Horizontal then ls[i].area.width else ls[i].area.height)
  }

  /** The percentages of a split: of its children's total along it, rounded down, the last
      child closing the sum to 100; or equal ones if the total is 0. */
  ghost predicate Proportional(kind: LayoutKind, ls: seq<LayoutNode>, sizes: seq<nat>) {
    var n, dims := |ls|, Along(kind, ls);
    var total := Sum(dims);
    && |sizes| == n
    && (total == 0 ==> forall i :: 0 <= i < n ==> sizes[i] == 100 / n)
    && (total > 0 ==>
          && (forall i :: 0 <= i < n - 1 ==> sizes[i] == dims[i] * 100 / total)
          && Sum(sizes) == 100)
  }

  /** A tree built from a layout: panes for panes, splits of the same kind with
      proportional sizes. */
  ghost predicate Built(node: Node, l: LayoutNode)
    decreases l
  {
    match l
    case Pane(_, _) => node.Leaf?
    case Box(kind, _, children) =>
      && node.Split? && node.kind == kind && |node.children| == |children|
      && Proportional(kind, children, node.sizes)
      && forall i :: 0 <= i < |children| ==> Built(node.children[i], children[i])
  }

  lemma {:induction false} ExtentsAlong(kind: LayoutKind, ls: seq<LayoutNode>)
    ensures ExtentsOf(kind, ls) == Along(kind, ls)
  {
    if ls != [] {
      ExtentsAlong(kind, ls[1..]);
      assert Along(kind, ls) == [Along(kind, ls)[0]] + Along(kind, ls[1..]);
    }
  }

  lemma {:induction false} FloorsAt(dims: seq<nat>, total: nat, i: nat)
    requires total > 0 && i < |dims|
    ensures Floors(dims, total)[i] == dims[i] * 100 / total
  {
    if i > 0 { FloorsAt(dims[1..], total, i - 1); }
  }

  lemma PercentagesAre(kind: LayoutKind, ls: seq<LayoutNode>)
    ensures Proportional(kind, ls, Percentages(kind, ls))
  {
    hide Sum;
    ExtentsAlong(kind, ls);
    PercentagesSum(kind, ls);
    var dims := Along(kind, ls);
    var total := Sum(dims);
    if total > 0 {
      forall i | 0 <= i < |ls| ensures Floors(dims, total)[i] == dims[i] * 100 / total { FloorsAt(dims, total, i); }
    }
  }

  lemma {:induction false} FilledIsBuilt(l: LayoutNode, panes: seq<Usize>)
    requires Fill(l, panes).node.Some?
    ensures Built(Fill(l, panes).node.value, l)
    decreases l, 0
  {
    hide Proportional;
    if l.Box? {
      PercentagesAre(l.kind, l.children);
      FilledAreBuilt(l.children, panes);
    }
  }

  lemma {:induction false} FilledAreBuilt(ls: seq<LayoutNode>, panes: seq<Usize>)
    requires FillAll(ls, panes).nodes.Some?
    ensures var nodes := FillAll(ls, panes).nodes.value;
            |nodes| == |ls| && forall i :: 0 <= i < |ls| ==> Built(nodes[i], ls[i])
    decreases ls, 1
  {
    hide Fill, Built;
    if ls != [] {
      FilledIsBuilt(ls[0], panes);
      FilledAreBuilt(ls[1..], Fill(ls[0], panes).rest);
    }
  }

  /** A name that is none of the nine: a layout string with no more leaves than panes gives
      the tree it describes, one that does not parse a flat horizontal split. */
  lemma OtherNamesMean(root: Node, name: string, mainHeight: U16, mainWidth: U16)
    requires |Leaves(root)| >= 2 && !IsName(name)
    ensures var panes, r := Leaves(root), Applied(root, name, mainHeight, mainWidth);
            match ParseLayoutString(name)
            case None => Flat(r, Horizontal, panes)
            case Some(l) =>
              if CountLeaves(l) <= |panes| then Built(r, l)
              else r.Split? && r.kind == Horizontal && r.children == [] && |r.sizes| == |panes|
  {
    hide IsName, PresetOf, Flat, Built, Fill, ParseLayoutString;
    NoPresetExactlyWhen(name);
    var panes := Leaves(root);
    EvenIsFlat(Horizontal, panes);
    if ParseLayoutString(name).Some? {
      var l := ParseLayoutString(name).value;
      FillTakesPanes(l, panes);
      if CountLeaves(l) <= |panes| { FilledIsBuilt(l, panes); }
    }
  }
}
