/** Which rows of the tree chooser are visible (`choose_tree.rs`). */
module Chooser {
  import opened Text

  datatype RowKind = Session | Window | Pane

  function Depth(k: RowKind): nat {
    match k case Session => 0 case Window => 1 case Pane => 2
  }

  /** The nearest row before `i` at depth `want`. */
  function NearestAt(kinds: seq<RowKind>, i: nat, want: nat): (r: Option<nat>)
    requires i <= |kinds|
    ensures r.Some? ==> r.value < i && Depth(kinds[r.value]) == want
    ensures r.Some? ==> forall j :: r.value < j < i ==> Depth(kinds[j]) != want
    ensures r.None? ==> forall j :: 0 <= j < i ==> Depth(kinds[j]) != want
  {
    if i == 0 then None
    else if Depth(kinds[i - 1]) == want then Some(i - 1)
    else NearestAt(kinds, i - 1, want)
  }

  /** `parent_of`: the nearest preceding row exactly one level up. */
  function ParentOf(kinds: seq<RowKind>, i: nat): (r: Option<nat>)
    ensures r.Some? ==> i < |kinds| && r.value < i
  {
    if i >= |kinds| || Depth(kinds[i]) == 0 then None else NearestAt(kinds, i, Depth(kinds[i]) - 1)
  }

  /** A row is visible when none of its ancestors is collapsed. */
  ghost predicate Visible(kinds: seq<RowKind>, collapsed: set<nat>, i: nat)
    decreases i
  {
    match ParentOf(kinds, i)
    case None => true
    case Some(p) => p !in collapsed && Visible(kinds, collapsed, p)
  }

  // ----- the one-pass scan -----

  /** The depth at and above which the scan is showing rows; `None` shows all. */
  type Limit = Option<nat>

  predicate Skips(limit: Limit, d: nat) { limit.Some? && d > limit.value }

  function NextLimit(limit: Limit, d: nat, isCollapsed: bool): Limit {
    if Skips(limit, d) then limit else if isCollapsed then Some(d) else None
  }

  /** The scan's limit when it reaches row `i`. */
  function LimitAt(kinds: seq<RowKind>, collapsed: set<nat>, i: nat): Limit
    requires i <= |kinds|
  {
    if i == 0 then None
    else NextLimit(LimitAt(kinds, collapsed, i - 1), Depth(kinds[i - 1]), i - 1 in collapsed)
  }

  predicate Shown(kinds: seq<RowKind>, collapsed: set<nat>, i: nat)
    requires i < |kinds|
  {
    !Skips(LimitAt(kinds, collapsed, i), Depth(kinds[i]))
  }

  function ShownUpTo(kinds: seq<RowKind>, collapsed: set<nat>, n: nat): seq<nat>
    requires n <= |kinds|
  {
    if n == 0 then []
    else ShownUpTo(kinds, collapsed, n - 1) + (if Shown(kinds, collapsed, n - 1) then [n - 1] else [])
  }

  /** `visible_lines`. */
  method VisibleLines(kinds: seq<RowKind>, collapsed: set<nat>) returns (out: seq<nat>)
    ensures out == ShownUpTo(kinds, collapsed, |kinds|)
  {
    out := [];
    var hideBelow: Limit := None;
    for i := 0 to |kinds|
      invariant out == ShownUpTo(kinds, collapsed, i)
      invariant hideBelow == LimitAt(kinds, collapsed, i)
    {
      var d := Depth(kinds[i]);
      if hideBelow.Some? {
        if d > hideBelow.value { continue; }
        hideBelow := None;
      }
      out := out + [i];
      if i in collapsed { hideBelow := Some(d); }
    }
  }

  /** No row is more than one level deeper than the row before it. */
  predicate DeepensByOne(kinds: seq<RowKind>) {
    forall i :: 0 < i < |kinds| ==> Depth(kinds[i]) <= Depth(kinds[i - 1]) + 1
  }

  /** In such a list every row after the parent is at least as deep as the row. */
  lemma {:induction false} BetweenParentAndRow(kinds: seq<RowKind>, i: nat, j: nat)
    requires DeepensByOne(kinds) && i < |kinds| && Depth(kinds[i]) > 0
    requires j < i && (forall k :: j <= k < i ==> Depth(kinds[k]) != Depth(kinds[i]) - 1)
    ensures Depth(kinds[j]) >= Depth(kinds[i])
    decreases i - j
  {
    if j + 1 < i { BetweenParentAndRow(kinds, i, j + 1); }
    assert Depth(kinds[j + 1]) <= Depth(kinds[j]) + 1;
  }

  /** Rows at depth `d` or deeper do not change whether the scan skips depth `d`. */
  lemma {:induction false} LimitPersists(kinds: seq<RowKind>, collapsed: set<nat>, from: nat, i: nat, d: nat)
    requires from <= i <= |kinds|
    requires forall j :: from <= j < i ==> Depth(kinds[j]) >= d
    ensures Skips(LimitAt(kinds, collapsed, i), d) <==> Skips(LimitAt(kinds, collapsed, from), d)
    decreases i
  {
    if from < i { LimitPersists(kinds, collapsed, from, i - 1, d); }
  }

  /** The scan shows exactly the rows whose ancestors are all expanded. */
  lemma {:induction false} ShownIsVisible(kinds: seq<RowKind>, collapsed: set<nat>, i: nat)
    requires DeepensByOne(kinds) && i < |kinds|
    ensures Shown(kinds, collapsed, i) <==> Visible(kinds, collapsed, i)
    decreases i
  {
    var d := Depth(kinds[i]);
    match ParentOf(kinds, i)
    case None =>
      forall j | 0 <= j < i ensures Depth(kinds[j]) >= d {
        if d > 0 { BetweenParentAndRow(kinds, i, j); }
      }
      LimitPersists(kinds, collapsed, 0, i, d);
    case Some(p) =>
      ShownIsVisible(kinds, collapsed, p);
      forall j | p < j < i ensures Depth(kinds[j]) >= d {
        BetweenParentAndRow(kinds, i, j);
      }
      LimitPersists(kinds, collapsed, p + 1, i, d);
  }

  ghost predicate Increasing(r: seq<nat>) { forall a, b :: 0 <= a < b < |r| ==> r[a] < r[b] }

  lemma {:induction false} ShownUpToIs(kinds: seq<RowKind>, collapsed: set<nat>, n: nat)
    requires n <= |kinds|
    ensures var r := ShownUpTo(kinds, collapsed, n);
            && (forall i :: i in r <==> 0 <= i < n && Shown(kinds, collapsed, i))
            && Increasing(r)
  {
    hide Shown;
    if n > 0 {
      ShownUpToIs(kinds, collapsed, n - 1);
      var before, r := ShownUpTo(kinds, collapsed, n - 1), ShownUpTo(kinds, collapsed, n);
      assert forall i :: i in before ==> i < n - 1;
      forall a, b | 0 <= a < b < |r| ensures r[a] < r[b] {
        if b < |before| { assert before[a] < before[b]; } else { assert before[a] in before; }
      }
    }
  }

  /** A list that jumps two levels, with its jumping row's predecessor collapsed:
      the scan hides the row although no ancestor of it is collapsed. */
  lemma JumpIsMisjudged(kinds: seq<RowKind>, i: nat)
    requires 0 < i < |kinds| && Depth(kinds[i]) > Depth(kinds[i - 1]) + 1
    ensures !Shown(kinds, {i - 1}, i) && Visible(kinds, {i - 1}, i)
  {
    assert kinds[i - 1] == Session && kinds[i] == Pane;
    assert !Shown(kinds, {i - 1}, i);
    var p := ParentOf(kinds, i);
    if p.Some? {
      var q := ParentOf(kinds, p.value);
      assert q.Some? ==> ParentOf(kinds, q.value).None?;
      assert Visible(kinds, {i - 1}, p.value);
    }
  }

  ghost predicate ScanAgrees(kinds: seq<RowKind>, collapsed: set<nat>) {
    forall i :: 0 <= i < |kinds| ==> (Shown(kinds, collapsed, i) <==> Visible(kinds, collapsed, i))
  }

  /** The scan agrees with the ancestor chains for every set of collapsed rows
      exactly when no row deepens by more than one level. */
  lemma ScanIsRightExactlyWhen(kinds: seq<RowKind>)
    ensures (forall collapsed: set<nat> :: ScanAgrees(kinds, collapsed)) <==> DeepensByOne(kinds)
  {
    if DeepensByOne(kinds) {
      forall collapsed: set<nat> ensures ScanAgrees(kinds, collapsed) {
        forall i | 0 <= i < |kinds| ensures Shown(kinds, collapsed, i) <==> Visible(kinds, collapsed, i) {
          ShownIsVisible(kinds, collapsed, i);
        }
      }
    } else {
      var i :| 0 < i < |kinds| && Depth(kinds[i]) > Depth(kinds[i - 1]) + 1;
      JumpIsMisjudged(kinds, i);
      assert !ScanAgrees(kinds, {i - 1});
    }
  }

  /** Increasing order, every row with no collapsed ancestor, and no other. */
  lemma VisibleLinesMeaning(kinds: seq<RowKind>, collapsed: set<nat>)
    requires DeepensByOne(kinds)
    ensures var r := ShownUpTo(kinds, collapsed, |kinds|);
            && (forall i :: i in r <==> 0 <= i < |kinds| && Visible(kinds, collapsed, i))
            && Increasing(r)
  {
    ShownUpToIs(kinds, collapsed, |kinds|);
    forall i | 0 <= i < |kinds| ensures Shown(kinds, collapsed, i) <==> Visible(kinds, collapsed, i) {
      ShownIsVisible(kinds, collapsed, i);
    }
  }

  // ----- the Left and Right keys -----

  predicate IsFlat(kinds: seq<RowKind>) { forall k <- kinds :: Depth(k) == 0 }

  predicate HasChildren(kinds: seq<RowKind>, i: nat) {
    i + 1 < |kinds| && Depth(kinds[i + 1]) > Depth(kinds[i])
  }

  datatype CollapseAction = Collapse(row: nat) | MoveUp
  datatype ExpandAction = Expand(row: nat) | MoveDown

  /** `collapse_action`: the Left key. */
  function CollapseKey(kinds: seq<RowKind>, collapsed: set<nat>, i: nat): CollapseAction
    requires i < |kinds|
  {
    var target := if IsFlat(kinds) || i in collapsed || !HasChildren(kinds, i) then ParentOf(kinds, i) else Some(i);
    if target.Some? then Collapse(target.value) else MoveUp
  }

  /** `expand_action`: the Right key. */
  function ExpandKey(kinds: seq<RowKind>, collapsed: set<nat>, i: nat): ExpandAction
    requires i < |kinds|
  {
    if IsFlat(kinds) || i !in collapsed || !HasChildren(kinds, i) then MoveDown else Expand(i)
  }

  ghost predicate IsParent(kinds: seq<RowKind>, p: int, i: nat)
    requires i < |kinds|
  {
    && 0 <= p < i && Depth(kinds[p]) + 1 == Depth(kinds[i])
    && forall j :: p < j < i ==> Depth(kinds[j]) + 1 != Depth(kinds[i])
  }

  /** The Left key on an expanded row with a deeper row right below it collapses the row;
      on any other it collapses the nearest row above that is one level up, and moves up
      only when there is none. */
  lemma LeftKeyDoes(kinds: seq<RowKind>, collapsed: set<nat>, i: nat)
    requires i < |kinds|
    ensures var below := i + 1 < |kinds| && Depth(kinds[i + 1]) > Depth(kinds[i]);
            var a := CollapseKey(kinds, collapsed, i);
            if below && i !in collapsed then a == Collapse(i)
            else (forall p :: IsParent(kinds, p, i) ==> a == Collapse(p))
                 && ((forall p :: !IsParent(kinds, p, i)) ==> a == MoveUp)
  {
    var below := i + 1 < |kinds| && Depth(kinds[i + 1]) > Depth(kinds[i]);
    if below && i !in collapsed {
      assert kinds[i + 1] in kinds;
    } else {
      var parent := ParentOf(kinds, i);
      assert CollapseKey(kinds, collapsed, i) == if parent.Some? then Collapse(parent.value) else MoveUp;
      if parent.Some? { assert IsParent(kinds, parent.value, i); }
    }
  }

  /** The Right key expands a collapsed row with a deeper row right below it, and moves
      down from any other. */
  lemma RightKeyDoes(kinds: seq<RowKind>, collapsed: set<nat>, i: nat)
    requires i < |kinds|
    ensures var below := i + 1 < |kinds| && Depth(kinds[i + 1]) > Depth(kinds[i]);
            ExpandKey(kinds, collapsed, i) == if below && i in collapsed then Expand(i) else MoveDown
  {
    if i + 1 < |kinds| && Depth(kinds[i + 1]) > Depth(kinds[i]) { assert kinds[i + 1] in kinds; }
  }

  /** A session with a window of two panes and a window without: the Left key on its rows. */
  lemma LeftKeyInTree()
    ensures var kinds := [Session, Window, Pane, Pane, Window];
            && CollapseKey(kinds, {}, 3) == CollapseKey(kinds, {}, 1) == Collapse(1)
            && CollapseKey(kinds, {1}, 1) == CollapseKey(kinds, {}, 4) == CollapseKey(kinds, {}, 0) == Collapse(0)
            && CollapseKey(kinds, {0}, 0) == MoveUp
            && ExpandKey(kinds, {0, 1}, 1) == Expand(1) && ExpandKey(kinds, {3}, 3) == MoveDown
  {
    hide CollapseKey, ExpandKey;
    var kinds := [Session, Window, Pane, Pane, Window];
    LeftKeyDoes(kinds, {}, 3);
    LeftKeyDoes(kinds, {}, 1);
    LeftKeyDoes(kinds, {1}, 1);
    LeftKeyDoes(kinds, {}, 4);
    LeftKeyDoes(kinds, {}, 0);
    LeftKeyDoes(kinds, {0}, 0);
    RightKeyDoes(kinds, {0, 1}, 1);
    RightKeyDoes(kinds, {3}, 3);
    assert IsParent(kinds, 1, 3) && IsParent(kinds, 0, 1) && IsParent(kinds, 0, 4);
  }

  /** Collapsing rows never hides a row that is not below one of them. */
  lemma {:induction false} CollapsingLater(kinds: seq<RowKind>, collapsed: set<nat>, t: nat, i: nat)
    requires i <= t
    ensures Visible(kinds, collapsed + {t}, i) <==> Visible(kinds, collapsed, i)
    decreases i
  {
    var p := ParentOf(kinds, i);
    if p.Some? { CollapsingLater(kinds, collapsed, t, p.value); }
  }

  /** From a visible row the Left key selects a row that is visible, and still is
      once it has been collapsed. */
  lemma LeftStaysVisible(kinds: seq<RowKind>, collapsed: set<nat>, i: nat)
    requires i < |kinds| && Visible(kinds, collapsed, i)
    ensures var a := CollapseKey(kinds, collapsed, i);
            a.Collapse? ==> a.row <= i && Visible(kinds, collapsed, a.row) && Visible(kinds, collapsed + {a.row}, a.row)
  {
    var a := CollapseKey(kinds, collapsed, i);
    if a.Collapse? { CollapsingLater(kinds, collapsed, a.row, a.row); }
  }

  /** Right then Left on the same row puts the collapsed set back. */
  lemma RightThenLeft(kinds: seq<RowKind>, collapsed: set<nat>, i: nat)
    requires i < |kinds| && ExpandKey(kinds, collapsed, i).Expand?
    ensures var shown := collapsed - {i};
            CollapseKey(kinds, shown, i) == Collapse(i) && shown + {i} == collapsed
  {
    assert collapsed - {i} + {i} == collapsed;
  }
}
