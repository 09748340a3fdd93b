/** Which pane owns copy mode (`copy_mode.rs`): the live cursor and selection are
    global, every pane parks its own while another pane has the focus, and a pane
    in copy mode shows a frozen copy of its screen. */
module Ownership {
  import opened Text
  import opened Yank

  type Position = (U16, U16)
  type Spot = (Usize, U16, U16)

  /** The global fields that a pane's saved state carries. */
  datatype Fields = Fields(
    anchor: Option<Position>, anchorScroll: nat, pos: Option<Position>, scrollOffset: nat,
    selectionMode: SelectionMode, searchQuery: string, count: Option<nat>, searchMatches: seq<Spot>,
    searchIdx: nat, searchForward: bool, findCharPending: Option<nat>, textObjectPending: Option<nat>,
    registerPending: bool, register: Option<char>, mark: Option<Spot>, lastJump: Option<(nat, char)>)

  datatype Mode = Passthrough | CopyMode | CopySearch(input: string, forward: bool)

  predicate InCopy(mode: Mode) { mode.CopyMode? || mode.CopySearch? }

  datatype CopyModeState = CopyModeState(fields: Fields, inSearch: bool, searchInput: string, inputForward: bool)

  /** A terminal: its lines, its cursor and how far its view is scrolled back. */
  datatype Grid = Grid(lines: seq<string>, cursor: Position, scrollback: nat)

  /** `grid` is what the pane shows. While it is a snapshot, `live` is the screen
      that the application goes on writing to. */
  datatype Pane = Pane(copyState: Option<CopyModeState>, grid: Grid, live: Option<Grid>) {
    function EnterSnapshot(): Pane { if live.Some? then this else this.(live := Some(grid)) }

    function LeaveSnapshot(): Pane { if live.Some? then this.(grid := live.value, live := None) else this }

    function LiveGrid(): Grid { if live.Some? then live.value else grid }

    /** The application's screen becomes `g`. */
    function Written(g: Grid): Pane { if live.Some? then this.(live := Some(g)) else this.(grid := g) }
  }

  datatype State = State(mode: Mode, now: Fields, panes: map<nat, Pane>, active: nat)

  function Carried(f: Fields, mode: Mode): CopyModeState {
    match mode
    case CopySearch(input, forward) => CopyModeState(f, true, input, forward)
    case _ => CopyModeState(f, false, "", true)
  }

  function ModeOf(c: CopyModeState): Mode {
    if c.inSearch then CopySearch(c.searchInput, c.inputForward) else CopyMode
  }

  // ----- what each operation does to the state -----

  ghost predicate Focused(s: State) { s.active in s.panes }

  function Parked(s: State): State
    requires Focused(s)
  {
    if InCopy(s.mode)
    then s.(panes := s.panes[s.active := s.panes[s.active].(copyState := Some(Carried(s.now, s.mode)))])
    else s
  }

  function Adopted(s: State): State
    requires Focused(s)
  {
    match s.panes[s.active].copyState
    case Some(c) => s.(mode := ModeOf(c), now := c.fields)
    case None => s.(mode := Passthrough)
  }

  function FreshFields(f: Fields, grid: Grid): Fields {
    f.(anchor := None, pos := Some(grid.cursor), scrollOffset := grid.scrollback, selectionMode := Char,
       count := None, findCharPending := None, textObjectPending := None,
       registerPending := false, register := None, mark := None, lastJump := None)
  }

  function Entered(s: State): State
    requires Focused(s)
  {
    var f := FreshFields(s.now, s.panes[s.active].grid);
    var p := s.panes[s.active].EnterSnapshot().(copyState := Some(Carried(f, CopyMode)));
    State(CopyMode, f, s.panes[s.active := p], s.active)
  }

  function Left(p: Pane): Pane {
    var shown := p.(copyState := None).LeaveSnapshot();
    shown.(grid := shown.grid.(scrollback := 0))
  }

  function Exited(s: State): State
    requires Focused(s)
  {
    State(Passthrough, s.now.(anchor := None, pos := None, scrollOffset := 0),
          s.panes[s.active := Left(s.panes[s.active])], s.active)
  }

  function Switched(s: State, target: nat): State
    requires Focused(s) && target in s.panes
  {
    var moved := Parked(s).(active := target);
    if moved.panes[target].copyState.Some? || InCopy(s.mode) then Adopted(moved) else moved
  }

  function Retargeted(s: State, prev: nat): State
    requires Focused(s)
  {
    if s.active == prev then s
    else if s.panes[s.active].copyState.Some? then Adopted(s)
    else if InCopy(s.mode) then
      s.(mode := Passthrough, now := s.now.(anchor := None, pos := None, scrollOffset := 0))
    else s
  }

  function Created(s: State, id: nat, grid: Grid): State
    requires Focused(s) && id !in s.panes
  {
    var parked := Parked(s);
    Retargeted(parked.(panes := parked.panes[id := Pane(None, grid, None)], active := id), s.active)
  }

  /** Killing does not park: the focus goes to `survivor`. */
  function Killed(s: State, id: nat, survivor: nat): State
    requires Focused(s) && survivor in s.panes && survivor != id
  {
    Retargeted(s.(panes := s.panes - {id}, active := survivor), s.active)
  }

  /** Any copy-mode command: it moves the cursor, the selection or the search and
      keeps the offset and the view together. */
  function Edited(s: State, f: Fields, mode: Mode): State
    requires Focused(s)
  {
    var p := s.panes[s.active];
    State(mode, f, s.panes[s.active := p.(grid := p.grid.(scrollback := f.scrollOffset))], s.active)
  }

  predicate OwnsMode(s: State, id: nat)
    requires id in s.panes
  {
    if id == s.active then InCopy(s.mode) else s.panes[id].copyState.Some?
  }

  function Synced(s: State): State {
    s.(panes := map id | id in s.panes ::
         if OwnsMode(s, id) then s.panes[id].EnterSnapshot() else s.panes[id].LeaveSnapshot())
  }

  // ----- the program -----

  class App {
    var mode: Mode
    var now: Fields
    var panes: map<nat, Pane>
    var active: nat

    /** The whole state as a value. */
    ghost function Now(): State
      reads this
    {
      State(mode, now, panes, active)
    }

    constructor (id: nat, grid: Grid)
      ensures Now() == Start(id, grid)
    {
      mode := Passthrough;
      now := Fields(None, 0, None, 0, Char, "", None, [], 0, true, None, None, false, None, None, None);
      panes, active := map[id := Pane(None, grid, None)], id;
    }

    method SaveCopyState()
      requires Focused(Now())
      modifies this`panes
      ensures panes == old(panes)[active := old(panes)[active].(copyState := Some(Carried(now, mode)))]
    {
      var inSearch, input, forward := false, "", true;
      if mode.CopySearch? {
        inSearch, input, forward := true, mode.input, mode.forward;
      }
      panes := panes[active := panes[active].(copyState := Some(CopyModeState(now, inSearch, input, forward)))];
    }

    method RestoreCopyState()
      requires Focused(Now())
      modifies this
      ensures Now() == Adopted(old(Now()))
    {
      match panes[active].copyState {
        case Some(c) => {
          now := c.fields;
          mode := if c.inSearch then CopySearch(c.searchInput, c.inputForward) else CopyMode;
        }
        case None => { mode := Passthrough; }
      }
    }

    method EnterCopyMode()
      requires Focused(Now())
      modifies this
      ensures Now() == Entered(old(Now()))
    {
      mode := CopyMode;
      panes := panes[active := panes[active].EnterSnapshot()];
      now := now.(scrollOffset := panes[active].grid.scrollback, selectionMode := Char, anchor := None,
                  pos := Some(panes[active].grid.cursor), findCharPending := None, textObjectPending := None,
                  registerPending := false, register := None, count := None, mark := None, lastJump := None);
      SaveCopyState();
    }

    method ExitCopyMode()
      requires Focused(Now())
      modifies this
      ensures Now() == Exited(old(Now()))
    {
      mode := Passthrough;
      now := now.(anchor := None, pos := None, scrollOffset := 0);
      var p := panes[active].(copyState := None).LeaveSnapshot();
      panes := panes[active := p.(grid := p.grid.(scrollback := 0))];
    }

    method SwitchFocus(target: nat)
      requires Focused(Now()) && target in panes
      modifies this
      ensures Now() == Switched(old(Now()), target)
    {
      var wasCopy := InCopy(mode);
      if wasCopy { SaveCopyState(); }
      active := target;
      if panes[active].copyState.Some? {
        RestoreCopyState();
      } else if wasCopy {
        mode := Passthrough;
      }
    }

    method Park()
      requires Focused(Now())
      modifies this
      ensures Now() == Parked(old(Now()))
    {
      if InCopy(mode) { SaveCopyState(); }
    }

    method Retarget(prev: nat)
      requires Focused(Now())
      modifies this
      ensures Now() == Retargeted(old(Now()), prev)
    {
      if active == prev { return; }
      if panes[active].copyState.Some? {
        RestoreCopyState();
      } else if InCopy(mode) {
        mode := Passthrough;
        now := now.(anchor := None, pos := None, scrollOffset := 0);
      }
    }

    method CreatePane(id: nat, grid: Grid)
      requires Focused(Now()) && id !in panes
      modifies this
      ensures Now() == Created(old(Now()), id, grid)
    {
      var prev := active;
      Park();
      panes, active := panes[id := Pane(None, grid, None)], id;
      Retarget(prev);
    }

    method KillPane(id: nat, survivor: nat)
      requires Focused(Now()) && survivor in panes && survivor != id
      modifies this
      ensures Now() == Killed(old(Now()), id, survivor)
    {
      var prev := active;
      panes, active := panes - {id}, survivor;
      Retarget(prev);
    }

    method SyncSnapshots()
      requires Focused(Now())
      modifies this`panes
      ensures Now() == Synced(old(Now()))
    {
      ghost var was := Now();
      var focusedInCopy := InCopy(mode);
      var todo := panes.Keys;
      while todo != {}
        invariant todo <= panes.Keys == was.panes.Keys
        invariant forall id :: id in todo ==> panes[id] == was.panes[id]
        invariant forall id :: id in panes && id !in todo ==> panes[id] == Synced(was).panes[id]
        decreases |todo|
      {
        var id :| id in todo;
        var want := if id == active then focusedInCopy else panes[id].copyState.Some?;
        panes := panes[id := if want then panes[id].EnterSnapshot() else panes[id].LeaveSnapshot()];
        todo := todo - {id};
      }
      assert panes == Synced(was).panes;
    }
  }

  // ----- runs -----

  function Start(id: nat, grid: Grid): State {
    State(Passthrough, Fields(None, 0, None, 0, Char, "", None, [], 0, true, None, None, false, None, None, None),
          map[id := Pane(None, grid, None)], id)
  }

  datatype Step =
    | Enter
    | Exit
    | Switch(target: nat)
    | Create(created: nat, grid: Grid)
    | Kill(victim: nat, survivor: nat)
    | Edit(fields: Fields, editMode: Mode)
    | Output(pane: nat, screen: Grid)
    | Sync

  ghost predicate Fits(s: State, e: Step) {
    && Focused(s)
    && match e
       case Switch(target) => target in s.panes
       case Create(id, _) => id !in s.panes
       case Kill(id, survivor) => survivor in s.panes && survivor != id
       case Edit(_, mode) => InCopy(s.mode) && InCopy(mode)
       case Output(id, _) => id in s.panes
       case _ => true
  }

  function After(s: State, e: Step): State
    requires Fits(s, e)
  {
    match e
    case Enter => Entered(s)
    case Exit => Exited(s)
    case Switch(target) => Switched(s, target)
    case Create(id, grid) => Created(s, id, grid)
    case Kill(id, survivor) => Killed(s, id, survivor)
    case Edit(f, mode) => Edited(s, f, mode)
    case Output(id, screen) => s.(panes := s.panes[id := s.panes[id].Written(screen)])
    case Sync => Synced(s)
  }

  ghost predicate Runs(s: State, es: seq<Step>)
    decreases |es|
  {
    es == [] || (Fits(s, es[0]) && Runs(After(s, es[0]), es[1..]))
  }

  function Run(s: State, es: seq<Step>): State
    requires Runs(s, es)
    decreases |es|
  {
    if es == [] then s else Run(After(s, es[0]), es[1..])
  }

  // ----- who is in copy mode -----

  /** The global mode is copy or search exactly when the focused pane has saved
      copy state, and exactly the panes with copy state hold a snapshot. */
  ghost predicate Owned(s: State) {
    && Focused(s)
    && (InCopy(s.mode) <==> s.panes[s.active].copyState.Some?)
    && forall id :: id in s.panes ==> (s.panes[id].live.Some? <==> s.panes[id].copyState.Some?)
  }

  lemma StartIsOwned(id: nat, grid: Grid)
    ensures Owned(Start(id, grid))
  {}

  lemma StepKeepsOwned(s: State, e: Step)
    requires Owned(s) && Fits(s, e)
    ensures Owned(After(s, e))
  {}

  /** One pane owns each copy mode, over every run. */
  lemma {:induction false} RunKeepsOwned(s: State, es: seq<Step>)
    requires Owned(s) && Runs(s, es)
    ensures Owned(Run(s, es))
    decreases |es|
  {
    if es != [] {
      StepKeepsOwned(s, es[0]);
      RunKeepsOwned(After(s, es[0]), es[1..]);
    }
  }

  /** Reconciling: afterwards exactly the panes in copy mode hold a snapshot, whatever
      state it started from; nothing else changes; doing it again changes nothing. */
  lemma SyncIsExact(s: State)
    requires Focused(s)
    ensures var t := Synced(s);
            && t.panes.Keys == s.panes.Keys && t == s.(panes := t.panes)
            && (forall id :: id in s.panes ==>
                  && (t.panes[id].live.Some? <==> OwnsMode(s, id))
                  && (OwnsMode(t, id) <==> OwnsMode(s, id))
                  && t.panes[id].copyState == s.panes[id].copyState
                  && t.panes[id].LiveGrid() == s.panes[id].LiveGrid())
            && Synced(t) == t
  {
    var t := Synced(s);
    assert Synced(t).panes == t.panes;
  }

  /** Through the ordinary operations there is never anything to reconcile. */
  lemma SyncIsIdle(s: State)
    requires Owned(s)
    ensures Synced(s) == s
  {
    assert Synced(s).panes == s.panes;
  }

  /** Copy mode starts on the view that was on screen: same lines, same offset,
      cursor at the terminal's; no selection, mark, count or pending key is left
      over, the last search is. */
  lemma EnterStartsAtView(s: State)
    requires Focused(s)
    ensures var t := Entered(s); var (was, p) := (s.panes[s.active], t.panes[s.active]);
            && t.mode == CopyMode && t.active == s.active
            && p.grid == was.grid && p.LiveGrid() == was.LiveGrid() && p.live.Some?
            && p.copyState == Some(Carried(t.now, CopyMode))
            && t.now.scrollOffset == was.grid.scrollback && t.now.pos == Some(was.grid.cursor)
            && t.now.anchor.None? && t.now.mark.None? && t.now.count.None? && t.now.selectionMode == Char
            && t.now.lastJump.None? && t.now.register.None? && !t.now.registerPending
            && t.now.findCharPending.None? && t.now.textObjectPending.None?
            && t.now.searchQuery == s.now.searchQuery && t.now.searchMatches == s.now.searchMatches
            && t.now.searchIdx == s.now.searchIdx && t.now.searchForward == s.now.searchForward
  {}

  /** The last search and everything else that is neither the selection, the cursor nor
      the view: two states agree on it. */
  ghost predicate SameRest(f: Fields, g: Fields) {
    && f.searchQuery == g.searchQuery && f.searchMatches == g.searchMatches
    && f.searchIdx == g.searchIdx && f.searchForward == g.searchForward
    && f.selectionMode == g.selectionMode && f.anchorScroll == g.anchorScroll && f.count == g.count
    && f.findCharPending == g.findCharPending && f.textObjectPending == g.textObjectPending
    && f.registerPending == g.registerPending && f.register == g.register
    && f.mark == g.mark && f.lastJump == g.lastJump
  }

  /** Leaving copy mode drops the selection, the cursor and the saved state, and shows the
      live screen at its bottom; the rest of the fields and every other pane stay. */
  lemma ExitKeepsTheRest(s: State)
    requires Focused(s)
    ensures var t := Exited(s); var (was, p) := (s.panes[s.active], t.panes[s.active]);
            && t.mode == Passthrough && t.active == s.active && t.panes == s.panes[s.active := p]
            && t.now.anchor.None? && t.now.pos.None? && t.now.scrollOffset == 0 && SameRest(t.now, s.now)
            && p.copyState.None? && p.live.None? && p.grid.scrollback == 0
            && p.grid.lines == was.LiveGrid().lines && p.grid.cursor == was.LiveGrid().cursor
  {}

  /** A search outlives copy mode: leaving it and entering it again, on this pane or on
      another, finds the query, the matches, the index and the direction. */
  lemma SearchOutlivesCopyMode(s: State, target: nat)
    requires Owned(s) && target in s.panes && (target == s.active || s.panes[target].copyState.None?)
    ensures var left := Exited(s); var again := Entered(Switched(left, target));
            && again.mode == CopyMode && again.active == target
            && again.now.searchQuery == s.now.searchQuery && again.now.searchMatches == s.now.searchMatches
            && again.now.searchIdx == s.now.searchIdx && again.now.searchForward == s.now.searchForward
            && again.now.pos == Some(s.panes[target].LiveGrid().cursor)
  {
    var left := Exited(s);
    assert left.panes[target].copyState.None?;
    assert Switched(left, target) == left.(active := target);
  }

  /** Focus that moves without parking to a pane outside copy mode: the reader's selection,
      cursor and view are dropped, and the rest stays. */
  lemma RetargetDropsTheReader(s: State, prev: nat)
    requires Focused(s) && s.active != prev && s.panes[s.active].copyState.None? && InCopy(s.mode)
    ensures var t := Retargeted(s, prev);
            && t.mode == Passthrough && t.active == s.active && t.panes == s.panes
            && t.now.anchor.None? && t.now.pos.None? && t.now.scrollOffset == 0 && SameRest(t.now, s.now)
  {}

  /** Apart from an application writing to its own screen, a step changes no pane
      but the one that has the focus. */
  lemma StepTouchesOnlyFocused(s: State, e: Step, id: nat)
    requires Owned(s) && Fits(s, e)
    requires id in s.panes && id != s.active && !(e.Output? && e.pane == id)
    ensures id in After(s, e).panes ==> After(s, e).panes[id] == s.panes[id]
    ensures id !in After(s, e).panes <==> e.Kill? && e.victim == id
  {}

  // ----- leaving a pane and coming back -----

  /** Pane `a` is out of focus and holds what it had when it was left. */
  ghost predicate Aside(s: State, a: nat, f: Fields, mode: Mode, grid: Grid) {
    && Focused(s) && a in s.panes && s.active != a
    && (if InCopy(mode) then s.panes[a].copyState == Some(Carried(f, mode)) && s.panes[a].grid == grid
        else s.panes[a].copyState == None)
  }

  ghost predicate Leaves(s: State, e: Step) { (e.Switch? && e.target != s.active) || e.Create? }

  ghost predicate Focuses(e: Step, a: nat) { e == Switch(a) || (e.Kill? && e.survivor == a) }

  ghost predicate LeavesAlone(e: Step, a: nat) { !Focuses(e, a) && !(e.Kill? && e.victim == a) }

  lemma LeavingSetsAside(s: State, e: Step)
    requires Owned(s) && Fits(s, e) && Leaves(s, e)
    ensures Aside(After(s, e), s.active, s.now, s.mode, s.panes[s.active].grid)
  {}

  lemma StepKeepsAside(s: State, e: Step, a: nat, f: Fields, mode: Mode, grid: Grid)
    requires Owned(s) && Fits(s, e) && Aside(s, a, f, mode, grid) && LeavesAlone(e, a)
    ensures Aside(After(s, e), a, f, mode, grid)
  {}

  lemma {:induction false} RunKeepsAside(s: State, es: seq<Step>, a: nat, f: Fields, mode: Mode, grid: Grid)
    requires Owned(s) && Runs(s, es) && Aside(s, a, f, mode, grid)
    requires forall i :: 0 <= i < |es| ==> LeavesAlone(es[i], a)
    ensures Aside(Run(s, es), a, f, mode, grid)
    decreases |es|
  {
    hide After, Owned, Aside, LeavesAlone;
    if es != [] {
      StepKeepsOwned(s, es[0]);
      StepKeepsAside(s, es[0], a, f, mode, grid);
      RunKeepsAside(After(s, es[0]), es[1..], a, f, mode, grid);
    }
  }

  lemma ReturningRestores(s: State, e: Step, a: nat, f: Fields, mode: Mode, grid: Grid)
    requires Owned(s) && Fits(s, e) && Aside(s, a, f, mode, grid) && Focuses(e, a)
    requires !InCopy(mode) ==> mode == Passthrough
    ensures var t := After(s, e);
            && t.active == a && a in t.panes && t.mode == mode
            && (InCopy(mode) ==> t.now == f && t.panes[a].grid == grid)
  {}

  /** Leaving a pane by a switch or by a new pane, then any run that neither focuses
      nor kills it, then coming back by a switch or because the focused pane was
      killed: mode, every carried field and the screen shown are as they were. */
  lemma ComesBack(s: State, out: Step, between: seq<Step>, back: Step)
    requires Owned(s) && Fits(s, out) && Leaves(s, out)
    requires Runs(After(s, out), between) && forall i :: 0 <= i < |between| ==> LeavesAlone(between[i], s.active)
    requires Fits(Run(After(s, out), between), back) && Focuses(back, s.active)
    ensures var t := After(Run(After(s, out), between), back);
            && t.active == s.active && s.active in t.panes && t.mode == s.mode
            && (InCopy(s.mode) ==> t.now == s.now && t.panes[s.active].grid == s.panes[s.active].grid)
  {
    hide After, Owned, Aside;
    var a, grid := s.active, s.panes[s.active].grid;
    OwnedIsFocused(s);
    StepKeepsOwned(s, out);
    LeavingSetsAside(s, out);
    RunKeepsOwned(After(s, out), between);
    RunKeepsAside(After(s, out), between, a, s.now, s.mode, grid);
    ReturningRestores(Run(After(s, out), between), back, a, s.now, s.mode, grid);
  }

  lemma OwnedIsFocused(s: State)
    requires Owned(s)
    ensures Focused(s)
  {}

  // ----- losing the focus to a kill -----

  /** Every recorded scroll offset is the offset its pane is shown at. */
  ghost predicate InStep(s: State) {
    && Focused(s)
    && (InCopy(s.mode) ==> s.now.scrollOffset == s.panes[s.active].grid.scrollback)
    && forall id :: id in s.panes && id != s.active && s.panes[id].copyState.Some? ==>
         s.panes[id].copyState.value.fields.scrollOffset == s.panes[id].grid.scrollback
  }

  /** Saved states are what saving writes: no search text outside a search. */
  ghost predicate Canonical(s: State) {
    forall id :: id in s.panes && s.panes[id].copyState.Some? ==>
      var c := s.panes[id].copyState.value; c == Carried(c.fields, ModeOf(c))
  }

  /** The focused pane in copy mode has its live cursor and mode saved. */
  ghost predicate UpToDate(s: State) {
    && Focused(s)
    && (InCopy(s.mode) ==> s.panes[s.active].copyState == Some(Carried(s.now, s.mode)))
  }

  /** Steps after which the focused pane's state has just been saved or adopted. */
  ghost predicate Settles(s: State, e: Step) {
    e.Enter? || e.Exit? || e.Switch? || e.Create? || (e.Kill? && e.survivor != s.active)
  }

  lemma StepKeepsCanonical(s: State, e: Step)
    requires Canonical(s) && Fits(s, e)
    ensures Canonical(After(s, e))
  {}

  /** Only an edit that changes something leaves an up-to-date state stale. */
  lemma StepMakesStale(s: State, e: Step)
    requires Owned(s) && Canonical(s) && UpToDate(s) && Fits(s, e)
    ensures !UpToDate(After(s, e)) <==> e.Edit? && (e.fields != s.now || e.editMode != s.mode)
  {}

  /** Cursor and mode at the last step of a run that settled them. */
  ghost function Settled(s: State, es: seq<Step>, f: Fields, mode: Mode): (Fields, Mode)
    requires Runs(s, es)
    decreases |es|
  {
    if es == [] then (f, mode)
    else
      var t := After(s, es[0]);
      if Settles(s, es[0]) then Settled(t, es[1..], t.now, t.mode) else Settled(t, es[1..], f, mode)
  }

  /** What the last edit since then made of them, if there was one. */
  ghost function LastEdit(s: State, es: seq<Step>, last: Option<(Fields, Mode)>): Option<(Fields, Mode)>
    requires Runs(s, es)
    decreases |es|
  {
    if es == [] then last
    else
      LastEdit(After(s, es[0]), es[1..],
               if Settles(s, es[0]) then None
               else if es[0].Edit? then Some((es[0].fields, es[0].editMode))
               else last)
  }

  /** In copy mode the focused pane's saved state is what was settled, and the live
      one what the last edit since made of it. */
  ghost predicate Tracks(s: State, f: Fields, mode: Mode, last: Option<(Fields, Mode)>) {
    && Focused(s)
    && (InCopy(s.mode) ==>
          && InCopy(mode) && s.panes[s.active].copyState == Some(Carried(f, mode))
          && (s.now, s.mode) == (if last.Some? then last.value else (f, mode)))
    && (!InCopy(s.mode) ==> last.None?)
  }

  lemma StepTracks(s: State, e: Step, f: Fields, mode: Mode, last: Option<(Fields, Mode)>)
    requires Owned(s) && Canonical(s) && Fits(s, e) && Tracks(s, f, mode, last)
    ensures var t := After(s, e);
            if Settles(s, e) then Tracks(t, t.now, t.mode, None)
            else Tracks(t, f, mode, if e.Edit? then Some((e.fields, e.editMode)) else last)
  {}

  lemma {:induction false} RunTracks(s: State, es: seq<Step>, f: Fields, mode: Mode, last: Option<(Fields, Mode)>)
    requires Owned(s) && Canonical(s) && Runs(s, es) && Tracks(s, f, mode, last)
    ensures Owned(Run(s, es)) && Canonical(Run(s, es))
    ensures var (f', mode') := Settled(s, es, f, mode); Tracks(Run(s, es), f', mode', LastEdit(s, es, last))
    decreases |es|
  {
    hide After, Owned, Canonical, Tracks, Settles;
    if es != [] {
      var e, t := es[0], After(s, es[0]);
      StepKeepsOwned(s, e);
      StepKeepsCanonical(s, e);
      StepTracks(s, e, f, mode, last);
      if Settles(s, e) {
        RunTracks(t, es[1..], t.now, t.mode, None);
      } else {
        RunTracks(t, es[1..], f, mode, if e.Edit? then Some((e.fields, e.editMode)) else last);
      }
    }
  }

  lemma CarriedTells(f: Fields, mode: Mode, g: Fields, other: Mode)
    requires InCopy(mode) && InCopy(other)
    ensures Carried(f, mode) == Carried(g, other) <==> f == g && mode == other
  {}

  /** After any run from the start, the focused pane's state is saved exactly when the
      last edit since it was entered or focused, if any, left cursor and mode as they
      were then. */
  lemma UpToDateExactlyWhen(id: nat, grid: Grid, es: seq<Step>)
    requires Runs(Start(id, grid), es)
    ensures var s := Start(id, grid);
            var last := LastEdit(s, es, None);
            UpToDate(Run(s, es)) <==> last.None? || last.value == Settled(s, es, s.now, s.mode)
  {
    hide Run, Settled, LastEdit;
    var s := Start(id, grid);
    RunTracks(s, es, s.now, s.mode, None);
    var t, last := Run(s, es), LastEdit(s, es, None);
    var (f, mode) := Settled(s, es, s.now, s.mode);
    if InCopy(t.mode) {
      CarriedTells(f, mode, t.now, t.mode);
    }
  }

  /** A kill parks nothing: when it takes the focus away from a pane that lives on, the
      pane is set aside with the state it last saved. */
  lemma KillSetsAsideLastParked(s: State, victim: nat, survivor: nat)
    requires Owned(s) && Canonical(s) && InCopy(s.mode) && victim != s.active && survivor != s.active
    requires Fits(s, Kill(victim, survivor))
    ensures var parked := s.panes[s.active].copyState.value;
            Aside(After(s, Kill(victim, survivor)), s.active, parked.fields, ModeOf(parked), s.panes[s.active].grid)
  {}

  /** Back in the pane, the cursor and mode are the ones it last saved. */
  lemma KillBringsBackLastParked(s: State, victim: nat, survivor: nat)
    requires Owned(s) && InCopy(s.mode) && victim != s.active && survivor != s.active
    requires Fits(s, Kill(victim, survivor))
    ensures var t := After(After(s, Kill(victim, survivor)), Switch(s.active));
            var parked := s.panes[s.active].copyState.value;
            t.now == parked.fields && t.mode == ModeOf(parked)
  {
    var gone := After(s, Kill(victim, survivor));
    assert gone.active == survivor && gone.panes[s.active] == s.panes[s.active];
    StepKeepsOwned(s, Kill(victim, survivor));
    if !InCopy(gone.mode) {
      assert Parked(gone) == gone;
    }
  }

  /** From the start, any run into copy mode, a kill of another pane that moves the
      focus to a third one, any run that leaves the reader's pane alone, and back: the
      cursor and mode come back exactly when the last edit since the pane was entered
      or focused, if any, left them as they were then. */
  lemma KillKeepsCursorExactlyWhen(id: nat, grid: Grid, es: seq<Step>, kill: Step, between: seq<Step>, back: Step)
    requires Runs(Start(id, grid), es) && InCopy(Run(Start(id, grid), es).mode)
    requires kill.Kill? && Fits(Run(Start(id, grid), es), kill)
    requires kill.victim != Run(Start(id, grid), es).active && kill.survivor != Run(Start(id, grid), es).active
    requires Runs(After(Run(Start(id, grid), es), kill), between)
    requires forall i :: 0 <= i < |between| ==> LeavesAlone(between[i], Run(Start(id, grid), es).active)
    requires Fits(Run(After(Run(Start(id, grid), es), kill), between), back)
    requires Focuses(back, Run(Start(id, grid), es).active)
    ensures var s := Start(id, grid);
            var before, last := Run(s, es), LastEdit(s, es, None);
            var t := After(Run(After(before, kill), between), back);
            && t.active == before.active
            && (t.now == before.now && t.mode == before.mode
                <==> last.None? || last.value == Settled(s, es, s.now, s.mode))
  {
    hide After, Run, Settled, LastEdit, Owned, Canonical, Aside, LeavesAlone;
    var s := Start(id, grid);
    StartTracks(id, grid);
    RunTracks(s, es, s.now, s.mode, None);
    UpToDateExactlyWhen(id, grid, es);
    var before := Run(s, es);
    var a := before.active;
    SavedInCopy(before);
    var parked := before.panes[a].copyState.value;
    KillSetsAsideLastParked(before, kill.victim, kill.survivor);
    StepKeepsOwned(before, kill);
    var gone := After(before, kill);
    RunKeepsOwned(gone, between);
    RunKeepsAside(gone, between, a, parked.fields, ModeOf(parked), before.panes[a].grid);
    ReturningRestores(Run(gone, between), back, a, parked.fields, ModeOf(parked), before.panes[a].grid);
    CarriedTells(parked.fields, ModeOf(parked), before.now, before.mode);
  }

  lemma StartTracks(id: nat, grid: Grid)
    ensures var s := Start(id, grid); Owned(s) && Canonical(s) && Tracks(s, s.now, s.mode, None)
  {}

  lemma SavedInCopy(s: State)
    requires Owned(s) && Canonical(s) && InCopy(s.mode)
    ensures Focused(s) && s.panes[s.active].copyState.Some?
    ensures var c := s.panes[s.active].copyState.value; c == Carried(c.fields, ModeOf(c)) && InCopy(ModeOf(c))
  {}

  lemma RunTakes(s: State, e: Step, es: seq<Step>)
    requires Fits(s, e) && Runs(After(s, e), es)
    ensures Runs(s, [e] + es) && Run(s, [e] + es) == Run(After(s, e), es)
  {
    hide Fits, After;
    assert ([e] + es)[1..] == es;
  }

  lemma RunRests(s: State)
    ensures Runs(s, []) && Run(s, []) == s
  {}

  /** Panes 1 and 2 are created, the focus goes back to 1, copy mode is entered and the
      cursor moved; pane 0 is killed and 2 takes the focus. Back in pane 1 the move
      is lost, whatever it was. */
  lemma KillLosesCursor(grid: Grid, moved: Fields)
    requires moved != FreshFields(Start(0, grid).now, grid)
    ensures var read := [Create(1, grid), Create(2, grid), Switch(1), Enter, Edit(moved, CopyMode)];
            var lose := [Kill(0, 2), Switch(1)];
            var s := Start(0, grid);
            && Runs(s, read) && Run(s, read).now == moved && Run(s, read).active == 1
            && Runs(Run(s, read), lose) && Run(Run(s, read), lose).active == 1
            && Run(Run(s, read), lose).mode == CopyMode
            && Run(Run(s, read), lose).now == FreshFields(s.now, grid) != moved
            && Fits(Run(s, read), Kill(0, 2))
            && (InStep(After(Run(s, read), Kill(0, 2))) <==> moved.scrollOffset == grid.scrollback)
  {
    hide Runs, Run, Fits, After, InStep;
    var s := Start(0, grid);
    var s1, s2, s3 := Created(s, 1, grid), Created(Created(s, 1, grid), 2, grid), Opened(grid);
    var s4 := Entered(s3);
    var s5 := Edited(s4, moved, CopyMode);
    PanesOpen(grid);
    ReadsOn(grid, moved);
    var edit := Edit(moved, CopyMode);
    assert [edit] + [] == [edit] && [Enter] + [edit] == [Enter, edit];
    assert [Switch(1)] + [Enter, edit] == [Switch(1), Enter, edit];
    assert [Create(2, grid)] + [Switch(1), Enter, edit] == [Create(2, grid), Switch(1), Enter, edit];
    assert [Create(1, grid)] + [Create(2, grid), Switch(1), Enter, edit]
        == [Create(1, grid), Create(2, grid), Switch(1), Enter, edit];
    RunRests(s5);
    RunTakes(s4, edit, []);
    RunTakes(s3, Enter, [edit]);
    RunTakes(s2, Switch(1), [Enter, edit]);
    RunTakes(s1, Create(2, grid), [Switch(1), Enter, edit]);
    RunTakes(s, Create(1, grid), [Create(2, grid), Switch(1), Enter, edit]);
    var s6 := Killed(s5, 0, 2);
    assert [Switch(1)] + [] == [Switch(1)] && [Kill(0, 2)] + [Switch(1)] == [Kill(0, 2), Switch(1)];
    RunRests(Switched(s6, 1));
    RunTakes(s6, Switch(1), []);
    RunTakes(s5, Kill(0, 2), [Switch(1)]);
  }

  /** Three panes, the focus on the second, none in copy mode. */
  function Opened(grid: Grid): State {
    var empty := Pane(None, grid, None);
    State(Passthrough, Start(0, grid).now, map[0 := empty, 1 := empty, 2 := empty], 1)
  }

  lemma PanesOpen(grid: Grid)
    ensures var s := Start(0, grid);
            && Fits(s, Create(1, grid)) && After(s, Create(1, grid)) == Created(s, 1, grid)
            && var s1 := Created(s, 1, grid);
            && Fits(s1, Create(2, grid)) && After(s1, Create(2, grid)) == Created(s1, 2, grid)
            && var s2 := Created(s1, 2, grid);
            && Fits(s2, Switch(1)) && After(s2, Switch(1)) == Opened(grid)
  {
    var s2 := Created(Created(Start(0, grid), 1, grid), 2, grid);
    assert s2.panes == Opened(grid).panes;
  }

  lemma ReadsOn(grid: Grid, moved: Fields)
    ensures var s3 := Opened(grid); var fields := FreshFields(s3.now, grid);
            && Fits(s3, Enter) && After(s3, Enter) == Entered(s3)
            && var s4 := Entered(s3);
            && Fits(s4, Edit(moved, CopyMode)) && After(s4, Edit(moved, CopyMode)) == Edited(s4, moved, CopyMode)
            && var s5 := Edited(s4, moved, CopyMode);
            && s5.now == moved && s5.active == 1
            && Fits(s5, Kill(0, 2)) && After(s5, Kill(0, 2)) == Killed(s5, 0, 2)
            && var s6 := Killed(s5, 0, 2);
            && (InStep(s6) <==> moved.scrollOffset == grid.scrollback)
            && Fits(s6, Switch(1)) && After(s6, Switch(1)) == Switched(s6, 1)
            && var s7 := Switched(s6, 1);
            s7.now == fields && s7.mode == CopyMode && s7.active == 1
  {
    var s6 := Killed(Edited(Entered(Opened(grid)), moved, CopyMode), 0, 2);
    var turned := s6.panes[1];
    assert turned.grid.scrollback == moved.scrollOffset && s6.active == 2;
    assert turned.copyState.value.fields.scrollOffset == grid.scrollback;
    assert forall id :: id in s6.panes ==> id == 1 || id == 2;
  }

  // ----- the view and the recorded offset -----

  /** A kill moves the focus only away from the pane it kills. */
  ghost predicate Orderly(s: State, e: Step) {
    e.Kill? && e.victim != s.active ==> e.survivor == s.active
  }

  ghost predicate OrderlyRun(s: State, es: seq<Step>)
    requires Runs(s, es)
    decreases |es|
  {
    es == [] || (Orderly(s, es[0]) && OrderlyRun(After(s, es[0]), es[1..]))
  }

  /** The kill takes the focus from a pane that lives on in copy mode. */
  ghost predicate Interrupts(s: State, e: Step) {
    e.Kill? && e.victim != s.active && e.survivor != s.active && InCopy(s.mode)
  }

  /** A step puts offsets out of step exactly when it is a kill that takes the focus from
      a reader who has scrolled since the offset was saved. */
  lemma StepInStepExactlyWhen(s: State, e: Step)
    requires Owned(s) && InStep(s) && Fits(s, e)
    ensures InStep(After(s, e)) <==>
              !(Interrupts(s, e) && s.panes[s.active].copyState.value.fields.scrollOffset != s.now.scrollOffset)
  {
    if Interrupts(s, e) {
      assert After(s, e).panes[s.active] == s.panes[s.active];
    }
  }

  lemma StepKeepsInStep(s: State, e: Step)
    requires Owned(s) && InStep(s) && Fits(s, e) && Orderly(s, e)
    ensures InStep(After(s, e))
  {
    StepInStepExactlyWhen(s, e);
  }

  lemma {:induction false} RunKeepsInStep(s: State, es: seq<Step>)
    requires Owned(s) && InStep(s) && Runs(s, es) && OrderlyRun(s, es)
    ensures InStep(Run(s, es))
    decreases |es|
  {
    hide After, Owned, InStep, Orderly;
    if es != [] {
      StepKeepsOwned(s, es[0]);
      StepKeepsInStep(s, es[0]);
      RunKeepsInStep(After(s, es[0]), es[1..]);
    }
  }

  /** Every state of the run is in step. */
  ghost predicate AlwaysInStep(s: State, es: seq<Step>)
    requires Runs(s, es)
    decreases |es|
  {
    InStep(s) && (es == [] || AlwaysInStep(After(s, es[0]), es[1..]))
  }

  /** No kill of the run interrupts a reader whose last edit scrolled away from where the
      view was when the pane was entered or focused. As for `Settled` and `LastEdit`,
      `f` and `last` tell what happened before. */
  ghost predicate NoScrollForgotten(s: State, es: seq<Step>, f: Fields, last: Option<(Fields, Mode)>)
    requires Runs(s, es)
    decreases |es|
  {
    es == [] ||
      (&& !(Interrupts(s, es[0]) && last.Some? && last.value.0.scrollOffset != f.scrollOffset)
       && var t := After(s, es[0]);
          if Settles(s, es[0]) then NoScrollForgotten(t, es[1..], t.now, None)
          else NoScrollForgotten(t, es[1..], f, if es[0].Edit? then Some((es[0].fields, es[0].editMode)) else last))
  }

  lemma SavedOffset(s: State, e: Step, f: Fields, mode: Mode, last: Option<(Fields, Mode)>)
    requires Owned(s) && Tracks(s, f, mode, last) && Fits(s, e) && Interrupts(s, e)
    ensures s.panes[s.active].copyState.value.fields.scrollOffset != s.now.scrollOffset
       <==> last.Some? && last.value.0.scrollOffset != f.scrollOffset
  {}

  lemma {:induction false} InStepExactlyWhen(s: State, es: seq<Step>, f: Fields, mode: Mode,
                                             last: Option<(Fields, Mode)>)
    requires Owned(s) && Canonical(s) && Runs(s, es) && Tracks(s, f, mode, last) && InStep(s)
    ensures AlwaysInStep(s, es) <==> NoScrollForgotten(s, es, f, last)
    decreases |es|
  {
    hide After, Owned, Canonical, InStep, Tracks, Settles, Interrupts, Fits;
    if es != [] {
      var e, t := es[0], After(s, es[0]);
      OwnedIsFocused(s);
      StepKeepsOwned(s, e);
      StepKeepsCanonical(s, e);
      StepTracks(s, e, f, mode, last);
      StepInStepExactlyWhen(s, e);
      if Interrupts(s, e) { SavedOffset(s, e, f, mode, last); }
      if InStep(t) {
        if Settles(s, e) {
          InStepExactlyWhen(t, es[1..], t.now, t.mode, None);
        } else {
          InStepExactlyWhen(t, es[1..], f, mode, if e.Edit? then Some((e.fields, e.editMode)) else last);
        }
      } else {
        OutOfStep(t, es[1..]);
      }
    }
  }

  lemma OutOfStep(s: State, es: seq<Step>)
    requires !InStep(s) && Runs(s, es)
    ensures !AlwaysInStep(s, es)
  {}

  /** From the start, recorded offsets are the shown ones at every point of a run exactly
      when no kill interrupts a reader whose last edit had scrolled. */
  lemma RunInStepExactlyWhen(id: nat, grid: Grid, es: seq<Step>)
    requires Runs(Start(id, grid), es)
    ensures AlwaysInStep(Start(id, grid), es) <==> NoScrollForgotten(Start(id, grid), es, Start(id, grid).now, None)
  {
    StartTracks(id, grid);
    InStepExactlyWhen(Start(id, grid), es, Start(id, grid).now, Start(id, grid).mode, None);
  }

  // ----- reading while the application writes -----

  /** What a pane in copy mode shows is frozen: no step changes its lines for as long
      as the pane stays in copy mode. */
  lemma StepKeepsReading(s: State, e: Step, id: nat)
    requires Owned(s) && Fits(s, e)
    requires id in s.panes && s.panes[id].copyState.Some?
    requires id in After(s, e).panes && After(s, e).panes[id].copyState.Some?
    ensures After(s, e).panes[id].grid.lines == s.panes[id].grid.lines
  {}

  ghost predicate StaysInCopy(s: State, es: seq<Step>, id: nat)
    requires Runs(s, es)
    decreases |es|
  {
    && id in s.panes && s.panes[id].copyState.Some?
    && (es == [] || StaysInCopy(After(s, es[0]), es[1..], id))
  }

  lemma {:induction false} RunKeepsReading(s: State, es: seq<Step>, id: nat)
    requires Owned(s) && Runs(s, es) && StaysInCopy(s, es, id)
    ensures id in Run(s, es).panes && Run(s, es).panes[id].grid.lines == s.panes[id].grid.lines
    decreases |es|
  {
    hide After, Owned;
    if es != [] {
      StepKeepsOwned(s, es[0]);
      StepKeepsReading(s, es[0], id);
      RunKeepsReading(After(s, es[0]), es[1..], id);
    }
  }

  /** The screen the application last wrote during a run. */
  function LastScreen(es: seq<Step>, id: nat, before: Grid): Grid {
    if es == [] then before
    else LastScreen(es[1..], id, if es[0].Output? && es[0].pane == id then es[0].screen else before)
  }

  predicate SameScreen(a: Grid, b: Grid) { a.lines == b.lines && a.cursor == b.cursor }

  lemma StepKeepsLive(s: State, e: Step, id: nat)
    requires Owned(s) && Fits(s, e) && id in s.panes && !(e.Kill? && e.victim == id)
    ensures id in After(s, e).panes
    ensures SameScreen(After(s, e).panes[id].LiveGrid(),
                       if e.Output? && e.pane == id then e.screen else s.panes[id].LiveGrid())
  {}

  lemma {:induction false} RunKeepsLive(s: State, es: seq<Step>, id: nat, before: Grid)
    requires Owned(s) && Runs(s, es) && id in s.panes && SameScreen(s.panes[id].LiveGrid(), before)
    requires forall i :: 0 <= i < |es| ==> !(es[i].Kill? && es[i].victim == id)
    ensures id in Run(s, es).panes && SameScreen(Run(s, es).panes[id].LiveGrid(), LastScreen(es, id, before))
    decreases |es|
  {
    hide After, Owned;
    if es != [] {
      StepKeepsOwned(s, es[0]);
      StepKeepsLive(s, es[0], id);
      RunKeepsLive(After(s, es[0]), es[1..], id,
                   if es[0].Output? && es[0].pane == id then es[0].screen else before);
    }
  }

  /** Leaving copy mode shows the last screen the application wrote, at the bottom,
      whatever was entered, left, switched or scrolled in between. */
  lemma LeavingShowsLastScreen(s: State, es: seq<Step>)
    requires Owned(s) && Runs(s, es)
    requires forall i :: 0 <= i < |es| ==> !(es[i].Kill? && es[i].victim == s.active)
    requires Run(s, es).active == s.active
    ensures Focused(Run(s, es))
    ensures var shown := Exited(Run(s, es)).panes[s.active];
            && SameScreen(shown.grid, LastScreen(es, s.active, s.panes[s.active].LiveGrid()))
            && shown.grid.scrollback == 0 && shown.live.None? && shown.copyState.None?
  {
    RunKeepsOwned(s, es);
    RunKeepsLive(s, es, s.active, s.panes[s.active].LiveGrid());
  }
}
