/** Cursor and view motions in copy mode (`copy_mode.rs`), stated on absolute
    lines: line 0 is the oldest retained line. */
module Motions {
  import opened Text
  import opened Terminal

  type I16 = n: int | -0x8000 <= n < 0x8000

  function Clamp(n: int, lo: int, hi: int): int { Max(lo, Min(n, hi)) }

  /** A sum in 16-bit two's complement. */
  function Wrap16(n: int): I16 { (n + 0x8000) % 0x1_0000 - 0x8000 }

  /** `(-n) as usize` of a negative `i16`: the least one is its own negative, and the
      cast makes it a huge number. */
  function Negated(n: I16): (r: int)
    requires n < 0
    ensures r > 0
  {
    if n == -0x8000 then USIZE_MAX + 1 - 0x8000 else -n
  }

  /** How many lines a vertical step takes the cursor, before it is clamped. */
  function Travelled(row: nat, dy: I16): int {
    var desired := Wrap16(row + dy);
    (if desired < 0 then -Negated(desired) else desired) - row
  }

  /** A step is taken as asked exactly when its sum fits 16 bits and is not the least
      16-bit number. */
  lemma TravelledAsAsked(row: nat, dy: I16)
    requires row < 0x8000
    ensures Travelled(row, dy) == dy <==> -0x8000 < row + dy < 0x8000
  {}

  /** From the second row, 32,767 lines down is taken for the way to the top. */
  lemma FarStepGoesUp(lines: nat)
    requires lines <= USIZE_MAX - 0x8000
    ensures Clamp(lines + Travelled(1, 0x7FFF), 0, lines) == 0
  {}

  /** `page_lines`: how far one page motion goes. */
  function PageLines(height: nat, halfPage: bool): (n: nat)
    ensures n >= 1
  {
    if height <= 2 then 1 else Max(if halfPage then height / 2 else height - 2, 1)
  }

  /** `read_row_text`, and whether it is all white space. */
  function ReadRowText(row: Row, cols: nat): string {
    if cols == 0 then ""
    else ReadRowText(row, cols - 1)
         + (if cols - 1 < |row| then CellText(row[cols - 1]) else " ")
  }

  predicate IsBlank(row: Row, cols: nat) { Trim(ReadRowText(row, cols)) == "" }

  /** A line is blank when no column holds anything but white space. */
  lemma {:induction false} BlankExactlyWhen(row: Row, cols: nat)
    ensures IsBlank(row, cols) <==>
              forall c :: 0 <= c < cols && c < |row| ==>
                forall i :: 0 <= i < |row[c].contents| ==> IsSpace(row[c].contents[i])
  {
    hide ReadRowText, Trim, IsSpace;
    var text := ReadRowText(row, cols);
    AllSpace(row, cols);
    TrimsAway(text);
    assert IsBlank(row, cols) <==> Trim(text) == "";
    assert IsBlank(row, cols) <==> forall i :: 0 <= i < |text| ==> IsSpace(text[i]);
  }

  lemma {:induction false} AllSpace(row: Row, cols: nat)
    ensures (forall i :: 0 <= i < |ReadRowText(row, cols)| ==> IsSpace(ReadRowText(row, cols)[i])) <==>
              forall c :: 0 <= c < cols && c < |row| ==>
                forall i :: 0 <= i < |row[c].contents| ==> IsSpace(row[c].contents[i])
  {
    if cols > 0 {
      AllSpace(row, cols - 1);
      var before := ReadRowText(row, cols - 1);
      var here := if cols - 1 < |row| then CellText(row[cols - 1]) else " ";
      assert ReadRowText(row, cols) == before + here;
      SpacesAdd(before, here);
    }
  }

  lemma SpacesAdd(a: string, b: string)
    ensures (forall i :: 0 <= i < |a + b| ==> IsSpace((a + b)[i])) <==>
              (forall i :: 0 <= i < |a| ==> IsSpace(a[i])) && (forall i :: 0 <= i < |b| ==> IsSpace(b[i]))
  {
    if forall i :: 0 <= i < |a + b| ==> IsSpace((a + b)[i]) {
      forall i | 0 <= i < |a| ensures IsSpace(a[i]) { assert a[i] == (a + b)[i]; }
      forall i | 0 <= i < |b| ensures IsSpace(b[i]) { assert b[i] == (a + b)[|a| + i]; }
    }
  }

  lemma {:induction false} TrimsAway(s: string)
    ensures Trim(s) == "" <==> forall i :: 0 <= i < |s| ==> IsSpace(s[i])
    decreases |s|
  {
    if s != "" && IsSpace(s[0]) {
      TrimsAway(s[1..]);
      assert forall i :: 0 < i < |s| ==> s[i] == s[1..][i - 1];
    } else if s != "" {
      TrimRightIs(s);
    }
  }

  const PARAGRAPH_WALK_LIMIT: nat := 100_000

  /** The first line at or after `from` that is blank (or not), else the last one. */
  function Ahead(lines: seq<Row>, cols: nat, from: nat, blank: bool): (i: nat)
    requires from < |lines|
    ensures from <= i < |lines|
    ensures forall j :: from <= j < i ==> IsBlank(lines[j], cols) != blank
    ensures IsBlank(lines[i], cols) == blank || i == |lines| - 1
    decreases |lines| - from
  {
    if IsBlank(lines[from], cols) == blank || from == |lines| - 1 then from
    else Ahead(lines, cols, from + 1, blank)
  }

  /** The first line at or before `from` that is blank (or not), else line 0. */
  function Behind(lines: seq<Row>, cols: nat, from: nat, blank: bool): (i: nat)
    requires from < |lines|
    ensures i <= from
    ensures forall j :: i < j <= from ==> IsBlank(lines[j], cols) != blank
    ensures IsBlank(lines[i], cols) == blank || i == 0
  {
    if IsBlank(lines[from], cols) == blank || from == 0 then from
    else Behind(lines, cols, from - 1, blank)
  }

  /** The blank line that ends the paragraph at or after a line. */
  function ParagraphEnd(lines: seq<Row>, cols: nat, from: nat): nat
    requires from < |lines|
  {
    Ahead(lines, cols, Ahead(lines, cols, from, false), true)
  }

  function ParagraphStart(lines: seq<Row>, cols: nat, from: nat): nat
    requires from < |lines|
  {
    Behind(lines, cols, Behind(lines, cols, from, false), true)
  }

  /** A view and the cursor in it, as a value. */
  datatype View = View(offset: nat, row: nat, col: nat)

  class CopyView {
    const term: Screen
    var row: nat
    var col: nat
    var scrollOffset: nat
    var mark: Option<View>

    constructor (term: Screen, row: nat, col: nat)
      requires term.Valid() && row < term.Rows() <= 0x7FFF && col < term.cols <= 0x7FFF
      ensures Valid() && this.term == term && this.row == row && this.col == col && mark == None
    {
      this.term, this.row, this.col := term, row, col;
      scrollOffset, mark := term.offset, None;
    }

    /** The cursor is on screen, and the offset kept beside it is the window's. */
    ghost predicate Valid()
      reads this, term
    {
      && term.Valid() && term.Rows() <= 0x7FFF && 0 < term.cols <= 0x7FFF
      && row < term.Rows() && col < term.cols && scrollOffset == term.offset
    }

    /** The absolute line under the cursor. */
    ghost function Line(): nat
      requires Valid()
      reads this, term
    {
      |term.history| - term.offset + row
    }

    ghost function LastLine(): nat
      requires Valid()
      reads this, term
    {
      |term.history| + term.Rows() - 1
    }

    ghost function Here(): View
      reads this, term
    {
      View(term.offset, row, col)
    }

    /** `move_copy_cursor`: the cursor lands on the clamped line, and the window
        moves only as far as needed to keep it on screen. A step whose sum leaves
        16 bits goes the wrapped way. */
    method MoveCursor(dx: I16, dy: I16)
      requires Valid()
      modifies this`row, this`col, this`scrollOffset, term
      ensures Valid()
      ensures Line() == Clamp(old(Line()) + Travelled(old(row), dy), 0, LastLine())
      ensures row == Clamp(old(row) + Travelled(old(row), dy), 0, term.Rows() - 1)
      ensures col == Clamp(Wrap16(old(col) + dx), 0, term.cols - 1)
    {
      var rows: int := term.Rows();
      var desired := Wrap16(row + dy);
      col := Min(Max(Wrap16(col + dx), 0), term.cols - 1);
      if desired < 0 {
        term.SetScrollback(term.offset + Negated(desired));
        scrollOffset, row := term.offset, 0;
      } else if desired >= rows {
        if term.offset > 0 {
          term.SetScrollback(SatSub(term.offset, desired - rows + 1));
          scrollOffset := term.offset;
        }
        row := rows - 1;
      } else {
        row := desired;
      }
    }

    /** `scroll_middle`: the line stays under the cursor and the view moves, as far
        as the history allows, until the line is in the middle. */
    method ScrollMiddle()
      requires Valid()
      modifies this`row, this`scrollOffset, term
      ensures Valid() && Line() == old(Line()) && col == old(col)
      ensures var middle := (term.Rows() - 1) / 2;
              || row == middle
              || (row < middle && term.offset == |term.history|)
              || (row > middle && term.offset == 0)
    {
      var middle, current := (term.Rows() - 1) / 2, term.offset;
      if row < middle {
        term.SetScrollback(current + (middle - row));
        row := row + SatSub(term.offset, current);
        scrollOffset := term.offset;
      } else if row > middle {
        var applied := Min(row - middle, current);
        term.SetScrollback(current - applied);
        row := row - applied;
        scrollOffset := term.offset;
      }
    }

    /** `page_scroll`: the view moves a page; where the buffer's end stops it, the
        cursor row moves a whole page instead. */
    method PageScroll(up: bool, halfPage: bool)
      requires Valid()
      modifies this`row, this`scrollOffset, term
      ensures Valid() && col == old(col)
      ensures Here() == Paged(|term.history|, term.Rows(), old(Here()), up, halfPage)
    {
      var rows := term.Rows();
      var n := PageLines(rows, halfPage);
      var before := term.offset;
      term.SetScrollback(if up then term.offset + n else SatSub(term.offset, n));
      scrollOffset := term.offset;
      var moved := if up then SatSub(term.offset, before) else SatSub(before, term.offset);
      if moved >= n { return; }
      row := if up then SatSub(row, n) else Min(row + n, rows - 1);
    }

    /** `set_mark`. */
    method SetMark()
      requires Valid()
      modifies this`mark
      ensures Valid() && mark == Some(old(Here()))
    {
      mark := Some(View(scrollOffset, row, col));
    }

    /** `jump_to_mark`: the cursor and the mark change places. The cursor is inside the
        pane afterwards exactly when the mark is, which a resize can have undone. */
    method JumpToMark()
      requires Valid()
      modifies this, term
      ensures Valid() <==> old(mark.Some? ==> mark.value.row < term.Rows() && mark.value.col < term.cols)
      ensures term.Valid() && scrollOffset == term.offset
      ensures old(mark).None? ==> Here() == old(Here()) && mark == None
      ensures old(mark).Some? ==>
                && Here() == Jumped(|term.history|, old(mark).value, old(Here())).0
                && mark == Some(Jumped(|term.history|, old(mark).value, old(Here())).1)
    {
      if mark.None? { return; }
      var to, here := mark.value, View(scrollOffset, row, col);
      term.SetScrollback(to.offset);
      scrollOffset := term.offset;
      row, col := to.row, to.col;
      mark := Some(here);
    }

    /** `step_copy_line`: whether the cursor could move. */
    method StepLine(down: bool) returns (moved: bool)
      requires Valid()
      modifies this`row, this`col, this`scrollOffset, term
      ensures Valid() && col == old(col)
      ensures Line() == Clamp(old(Line()) + (if down then 1 else -1), 0, LastLine())
      ensures moved <==> Line() != old(Line())
    {
      var before := (scrollOffset, row);
      MoveCursor(0, if down then 1 else -1);
      moved := before != (scrollOffset, row);
    }

    method RowIsBlank() returns (blank: bool)
      requires Valid()
      ensures Line() < |term.Lines()| && blank == IsBlank(term.Lines()[Line()], term.cols)
    {
      term.VisibleRowIsLine(row);
      blank := IsBlank(term.VisibleRow(row), term.cols);
    }

    /** `move_next_paragraph`: over the blank lines under the cursor, then to the
        end of the paragraph; the walk gives up after a fixed number of steps. */
    method NextParagraph()
      requires Valid()
      modifies this`row, this`col, this`scrollOffset, term
      ensures Valid() && col == 0
      ensures Line() == Min(ParagraphEnd(term.Lines(), term.cols, old(Line())), old(Line()) + 100_000)
    {
      hide IsBlank;
      ghost var start, lines, cols := Line(), term.Lines(), term.cols;
      ghost var body := Ahead(lines, cols, start, false);
      col := 0;
      var steps: nat := 0;
      var blank := RowIsBlank();
      while steps < PARAGRAPH_WALK_LIMIT && blank
        invariant Valid() && col == 0 && steps <= PARAGRAPH_WALK_LIMIT
        invariant Line() == start + steps <= body
        invariant blank == IsBlank(lines[Line()], cols)
        decreases PARAGRAPH_WALK_LIMIT - steps
      {
        var moved := StepLine(true);
        if !moved { return; }
        steps := steps + 1;
        blank := RowIsBlank();
      }
      while steps < PARAGRAPH_WALK_LIMIT && !blank
        invariant Valid() && col == 0 && steps <= PARAGRAPH_WALK_LIMIT
        invariant Line() == start + steps <= Ahead(lines, cols, body, true)
        invariant steps < PARAGRAPH_WALK_LIMIT ==> body <= Line()
        invariant blank == IsBlank(lines[Line()], cols)
        decreases PARAGRAPH_WALK_LIMIT - steps
      {
        var moved := StepLine(true);
        if !moved { return; }
        steps := steps + 1;
        blank := RowIsBlank();
      }
    }

    /** `move_prev_paragraph`. */
    method PrevParagraph()
      requires Valid()
      modifies this`row, this`col, this`scrollOffset, term
      ensures Valid() && col == 0
      ensures Line() == Max(ParagraphStart(term.Lines(), term.cols, old(Line())), old(Line()) - 100_000)
    {
      hide IsBlank;
      ghost var start, lines, cols := Line(), term.Lines(), term.cols;
      ghost var body := Behind(lines, cols, start, false);
      col := 0;
      var steps: nat := 0;
      var blank := RowIsBlank();
      while steps < PARAGRAPH_WALK_LIMIT && blank
        invariant Valid() && col == 0 && steps <= PARAGRAPH_WALK_LIMIT
        invariant Line() == start - steps >= body
        invariant blank == IsBlank(lines[Line()], cols)
        decreases PARAGRAPH_WALK_LIMIT - steps
      {
        var moved := StepLine(false);
        if !moved { return; }
        steps := steps + 1;
        blank := RowIsBlank();
      }
      while steps < PARAGRAPH_WALK_LIMIT && !blank
        invariant Valid() && col == 0 && steps <= PARAGRAPH_WALK_LIMIT
        invariant Line() == start - steps >= Behind(lines, cols, body, true)
        invariant steps < PARAGRAPH_WALK_LIMIT ==> Line() <= body
        invariant blank == IsBlank(lines[Line()], cols)
        decreases PARAGRAPH_WALK_LIMIT - steps
      {
        var moved := StepLine(false);
        if !moved { return; }
        steps := steps + 1;
        blank := RowIsBlank();
      }
    }
  }

  // ----- marks -----

  /** The view after a jump, and the mark after it. */
  function Jumped(history: nat, mark: View, here: View): (View, View) {
    (mark.(offset := Min(mark.offset, history)), here)
  }

  /** Jumping twice is the identity on cursor and mark exactly when the mark's
      offset is within the retained history. */
  lemma JumpTwice(history: nat, mark: View, here: View)
    requires here.offset <= history
    ensures var (there, back) := Jumped(history, mark, here);
            var (again, mark2) := Jumped(history, back, there);
            again == here && (mark2 == mark <==> mark.offset <= history)
  {}

  // ----- pages -----

  /** A view after a page motion. */
  function Paged(history: nat, rows: nat, v: View, up: bool, halfPage: bool): View
    requires rows > 0
  {
    var n := PageLines(rows, halfPage);
    if up then
      if v.offset + n <= history then v.(offset := v.offset + n)
      else v.(offset := Min(v.offset + n, history), row := SatSub(v.row, n))
    else
      if v.offset >= n then v.(offset := v.offset - n)
      else v.(offset := 0, row := Min(v.row + n, rows - 1))
  }

  function LineOf(history: nat, v: View): int { history - v.offset + v.row }

  function PagedTimes(history: nat, rows: nat, v: View, up: bool, halfPage: bool, k: nat): View
    requires rows > 0
    decreases k
  {
    if k == 0 then v else PagedTimes(history, rows, Paged(history, rows, v, up, halfPage), up, halfPage, k - 1)
  }

  ghost predicate InView(history: nat, rows: nat, v: View) { v.offset <= history && v.row < rows }

  /** A full page is the height less two lines, a half page half the height, and one line
      in a pane of at most two rows: the view moves by it where the buffer allows, and
      otherwise goes to the end while the row moves by it instead. */
  lemma PageLands(history: nat, rows: nat, v: View, up: bool, halfPage: bool, n: nat)
    requires InView(history, rows, v)
    requires if rows <= 2 then n == 1 else if halfPage then 2 * n == rows || 2 * n + 1 == rows else n + 2 == rows
    ensures var w := Paged(history, rows, v, up, halfPage);
            && w.col == v.col
            && (up && v.offset + n <= history ==> w.offset == v.offset + n && w.row == v.row)
            && (up && v.offset + n > history ==> w.offset == history && w.row == if n <= v.row then v.row - n else 0)
            && (!up && n <= v.offset ==> w.offset == v.offset - n && w.row == v.row)
            && (!up && n > v.offset ==> w.offset == 0 && w.row == if v.row + n < rows then v.row + n else rows - 1)
  {
    assert PageLines(rows, halfPage) == n;
  }

  /** A page motion never overshoots the ends of the buffer, and moves at least a
      page unless it reaches one. */
  lemma PageMoves(history: nat, rows: nat, v: View, up: bool, halfPage: bool)
    requires InView(history, rows, v)
    ensures var w := Paged(history, rows, v, up, halfPage);
            var (before, after, n) := (LineOf(history, v), LineOf(history, w), PageLines(rows, halfPage));
            && InView(history, rows, w) && w.col == v.col
            && w.offset == Clamp(if up then v.offset + n else v.offset - n, 0, history)
            && (w.row != v.row ==> w.offset == if up then history else 0)
            && (if up then Max(before - 2 * n + 1, 0) <= after <= Max(before - n, 0)
                else Min(before + n, history + rows - 1) <= after <= Min(before + 2 * n - 1, history + rows - 1))
  {}

  /** A page down undoes a page up exactly when the view could take the whole page,
      or the buffer's end held it still and the cursor row could. */
  lemma PageUpUndone(history: nat, rows: nat, v: View, halfPage: bool)
    requires InView(history, rows, v)
    ensures var n := PageLines(rows, halfPage);
            Paged(history, rows, Paged(history, rows, v, true, halfPage), false, halfPage) == v
            <==> v.offset + n <= history || (v.offset == 0 && (n <= v.row || rows == 1))
  {}

  /** And a page up a page down. */
  lemma PageDownUndone(history: nat, rows: nat, v: View, halfPage: bool)
    requires InView(history, rows, v)
    ensures var n := PageLines(rows, halfPage);
            Paged(history, rows, Paged(history, rows, v, false, halfPage), true, halfPage) == v
            <==> n <= v.offset || (v.offset == history && (v.row + n < rows || rows == 1))
  {}

  /** Repeated page motions reach the first or the last line of the buffer. */
  lemma {:induction false} PagesReachEnd(history: nat, rows: nat, v: View, up: bool, halfPage: bool, k: nat)
    requires InView(history, rows, v)
    requires k >= (if up then LineOf(history, v) else history + rows - 1 - LineOf(history, v))
    ensures LineOf(history, PagedTimes(history, rows, v, up, halfPage, k)) == if up then 0 else history + rows - 1
    decreases k
  {
    if k > 0 {
      PageMoves(history, rows, v, up, halfPage);
      PagesReachEnd(history, rows, Paged(history, rows, v, up, halfPage), up, halfPage, k - 1);
    }
  }
}
