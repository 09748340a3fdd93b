/** The selection a frame paints (`layout.rs`, drawn by `client.rs`) against the
    cells a yank copies (`copy_mode.rs`). */
module Painted {
  import opened Text
  import opened Yank

  /** A recorded end: its row and column, and the scroll offset of that moment. */
  datatype End = End(row: U16, col: U16, recorded: nat) {
    function ContentLine(): int { row - recorded }
  }

  /** What the frame sends: start and end row and column, and the mode. */
  datatype Frame = Frame(startRow: nat, startCol: U16, endRow: nat, endCol: U16, mode: SelectionMode)

  /** `display_row`: a recorded row moved with the view, clamped to the pane. */
  function DisplayRow(e: End, scroll: nat, rows: nat): nat
    requires rows > 0
  {
    Min(Max(e.row + scroll - e.recorded, 0), rows - 1)
  }

  /** The selection fields of `dump_layout_json_fast`. */
  function Paint(mode: SelectionMode, anchor: End, cursor: End, scroll: nat, rows: nat, cols: U16): Frame
    requires rows > 0
  {
    var a, p := DisplayRow(anchor, scroll, rows), DisplayRow(cursor, scroll, rows);
    match mode
    case Char =>
      if a <= p then Frame(Min(a, p), anchor.col, Max(a, p), cursor.col, mode)
      else Frame(Min(a, p), cursor.col, Max(a, p), anchor.col, mode)
    case Rect => Frame(Min(a, p), Min(anchor.col, cursor.col), Max(a, p), Max(anchor.col, cursor.col), mode)
    case Line => Frame(Min(a, p), 0, Max(a, p), SatSub(cols, 1), mode)
  }

  /** The cells the client highlights for a frame. */
  predicate Highlights(f: Frame, row: nat, col: nat) {
    match f.mode
    case Rect => f.startRow <= row <= f.endRow && Min(f.startCol, f.endCol) <= col <= Max(f.startCol, f.endCol)
    case Line => f.startRow <= row <= f.endRow
    case Char =>
      if f.startRow == f.endRow then
        row == f.startRow && Min(f.startCol, f.endCol) <= col <= Max(f.startCol, f.endCol)
      else if row == f.startRow then col >= f.startCol
      else if row == f.endRow then col <= f.endCol
      else f.startRow < row < f.endRow
  }

  function SelectionOf(mode: SelectionMode, anchor: End, cursor: End): Selection {
    Selection(mode, anchor.ContentLine(), anchor.col, cursor.ContentLine(), cursor.col)
  }

  /** The cells a yank reads: column `col` of content line `line`. */
  predicate Copies(s: Selection, cols: U16, line: int, col: nat) {
    && s.Top() <= line <= s.Bottom()
    && var (from, end) := Columns(s, cols, line == s.Top(), line == s.Bottom());
       from <= col < end
  }

  predicate OnView(e: End, scroll: nat, rows: nat) { 0 <= e.ContentLine() + scroll < rows }

  /** With both ends on view, a cell of the pane is highlighted exactly when the
      yank copies it, in every mode and whatever was scrolled in between. */
  lemma PaintedIsYanked(mode: SelectionMode, anchor: End, cursor: End, scroll: nat, rows: nat, cols: U16,
                        row: nat, col: nat)
    requires row < rows && col < cols
    requires OnView(anchor, scroll, rows) && OnView(cursor, scroll, rows)
    ensures Highlights(Paint(mode, anchor, cursor, scroll, rows, cols), row, col)
       <==> Copies(SelectionOf(mode, anchor, cursor), cols, row - scroll, col)
  {
    var s := SelectionOf(mode, anchor, cursor);
    assert DisplayRow(anchor, scroll, rows) == s.anchorLine + scroll;
    assert DisplayRow(cursor, scroll, rows) == s.cursorLine + scroll;
    assert s.Total() == 1 <==> s.anchorLine == s.cursorLine;
  }

  /** The selection has a line on view. */
  predicate Meets(s: Selection, scroll: nat, rows: nat) { s.Top() + scroll < rows && s.Bottom() + scroll >= 0 }

  /** The character selection's columns survive the clamp of its ends to the pane.
      Where the clamp leaves two rows or more, an end above the pane must start at the
      first column and an end below it must reach the last one. Where it leaves one
      row, the client paints between the two columns. */
  predicate ClampKeeps(s: Selection, scroll: nat, rows: nat, cols: U16)
    requires rows > 0
  {
    var (above, below) := (s.Top() + scroll < 0, s.Bottom() + scroll >= rows);
    var (from, end) := (s.TopCol(), s.BottomCol());
    if !above && !below then true
    else if Max(s.Top() + scroll, 0) < Min(s.Bottom() + scroll, rows - 1) then
      (above ==> from == 0) && (below ==> end >= cols - 1)
    else if above && below then Min(from, end) == 0 && Max(from, end) >= cols - 1
    else if above then from == 0 || (end == 0 && cols == 1)
    else if from < cols then end >= cols - 1
    else end >= cols
  }

  /** When a frame paints a selection as it is yanked: it has a line on view and, in
      character mode, its columns survive the clamp; or what the clamp puts on an edge
      row lies beyond the last column. */
  predicate PaintsRight(s: Selection, scroll: nat, rows: nat, cols: U16)
    requires rows > 0
  {
    if Meets(s, scroll, rows) then s.mode.Char? ==> ClampKeeps(s, scroll, rows, cols)
    else !s.mode.Line? && s.LeftCol() >= cols
  }

  /** Whatever ends are recorded, the whole pane is painted as it is yanked exactly when
      `PaintsRight`. Otherwise the clamp paints cells of an edge row that the yank does
      not copy, or leaves out cells that it does. */
  lemma PaintedExactlyWhen(mode: SelectionMode, anchor: End, cursor: End, scroll: nat, rows: nat, cols: U16)
    requires rows > 0 && cols > 0
    ensures var s := SelectionOf(mode, anchor, cursor);
            var f := Paint(mode, anchor, cursor, scroll, rows, cols);
            (forall row: nat, col: nat | row < rows && col < cols ::
               Highlights(f, row, col) <==> Copies(s, cols, row - scroll, col))
            <==> PaintsRight(s, scroll, rows, cols)
  {
    var s, f := SelectionOf(mode, anchor, cursor), Paint(mode, anchor, cursor, scroll, rows, cols);
    if !PaintsRight(s, scroll, rows, cols) {
      var (row, col) := WrongCell(s, scroll, rows, cols);
      WrongCellIs(mode, anchor, cursor, scroll, rows, cols);
      assert row < rows && col < cols && (Highlights(f, row, col) <==> !Copies(s, cols, row - scroll, col));
    }
  }

  /** A cell that is painted but not copied, or copied but not painted. */
  function WrongCell(s: Selection, scroll: nat, rows: nat, cols: U16): (nat, nat)
    requires rows > 0 && cols > 0
  {
    var (above, below) := (s.Top() + scroll < 0, s.Bottom() + scroll >= rows);
    var (from, end) := (s.TopCol(), s.BottomCol());
    if !Meets(s, scroll, rows) then
      (if s.Top() + scroll >= rows then rows - 1 else 0, if s.mode.Line? then 0 else Min(from, end))
    else if Max(s.Top() + scroll, 0) < Min(s.Bottom() + scroll, rows - 1) then
      if above && from != 0 then (0, 0) else (rows - 1, cols - 1)
    else if above && below then (0, if Min(from, end) == 0 then cols - 1 else 0)
    else if above then (0, if end == 0 then Min(from, cols - 1) else 0)
    else (rows - 1, if end < from then end else cols - 1)
  }

  lemma WrongCellIs(mode: SelectionMode, anchor: End, cursor: End, scroll: nat, rows: nat, cols: U16)
    requires rows > 0 && cols > 0 && !PaintsRight(SelectionOf(mode, anchor, cursor), scroll, rows, cols)
    ensures var s := SelectionOf(mode, anchor, cursor);
            var f := Paint(mode, anchor, cursor, scroll, rows, cols);
            var (row, col) := WrongCell(s, scroll, rows, cols);
            row < rows && col < cols && (Highlights(f, row, col) <==> !Copies(s, cols, row - scroll, col))
  {}

  /** A character selection anchored at column 5 of a line that has scrolled off the top:
      the first cell on view is copied but not painted. */
  lemma ScrolledOffEndPaintsLess()
    ensures var anchor, cursor := End(0, 5, 3), End(2, 7, 0);
            && !Highlights(Paint(Char, anchor, cursor, 0, 10, 80), 0, 0)
            && Copies(SelectionOf(Char, anchor, cursor), 80, 0, 0)
  {}
}
