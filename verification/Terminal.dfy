/** The terminal as the copy-mode code sees it: a window of `rows` lines that can
    be moved over retained history (`vt100-psmux`). */
module Terminal {
  import opened Text

  type Byte = n: nat | n < 256

  datatype Color = Default | Idx(n: Byte) | Rgb(r: Byte, g: Byte, b: Byte)

  datatype Underline = NoUnderline | Straight | Double | Curly | Dotted | Dashed

  /** The terminal keeps one intensity: setting bold clears dim and the reverse. */
  datatype Intensity = Normal | Bold | Dim

  datatype Style = Style(
    fg: Color, bg: Color, ulcolor: Color, ul: Underline, intensity: Intensity,
    italic: bool, inverse: bool, blink: bool, hidden: bool, strike: bool)

  const PLAIN := Style(Default, Default, Default, NoUnderline, Normal, false, false, false, false, false)

  datatype Cell = Cell(contents: string, wideContinuation: bool, style: Style, link: nat)

  type Row = seq<Cell>

  /** Copy mode reads a snapshot, so only the scroll offset changes. */
  class Screen {
    const history: seq<Row>
    const visible: seq<Row>
    const cols: U16
    var offset: nat

    constructor (history: seq<Row>, visible: seq<Row>, cols: U16)
      requires 0 < |visible| < 0x1_0000
      ensures Valid() && this.history == history && this.visible == visible && this.cols == cols && offset == 0
    {
      this.history, this.visible, this.cols, this.offset := history, visible, cols, 0;
    }

    ghost predicate Valid()
      reads this
    {
      0 < |visible| < 0x1_0000 && offset <= |history|
    }

    function Rows(): nat { |visible| }

    /** Every retained line, oldest first. */
    function Lines(): seq<Row> { history + visible }

    /** `set_scrollback`: the offset is clamped to the retained history. */
    method SetScrollback(n: nat)
      requires Valid()
      modifies this
      ensures Valid() && offset == Min(n, |history|)
    {
      offset := Min(n, |history|);
    }

    /** `visible_row`: rows come from the scrollback first, then from the screen. */
    function VisibleRow(r: nat): Row
      requires Valid() && r < Rows()
      reads this
    {
      var fromScrollback := Min(offset, Rows());
      if r < fromScrollback then history[|history| - offset + r] else visible[r - fromScrollback]
    }

    /** Row `r` at offset `s` shows line `|history| - s + r`. */
    lemma VisibleRowIsLine(r: nat)
      requires Valid() && r < Rows()
      ensures VisibleRow(r) == Lines()[|history| - offset + r]
    {}
  }

  /** A cell that was never written shows a space. */
  function CellText(cell: Cell): string { if cell.contents == "" then " " else cell.contents }

  /** `push_capture_cell`: a column without a cell is a space, the second half of a
      wide glyph is nothing. */
  function ColumnText(row: Row, c: nat): string {
    if c >= |row| then " "
    else if row[c].wideContinuation then ""
    else CellText(row[c])
  }

  /** `capture_row_text`: columns `from` up to but not including `end`. */
  function RowText(row: Row, from: nat, end: nat): string
    decreases end - from
  {
    if from >= end then "" else ColumnText(row, from) + RowText(row, from + 1, end)
  }

  /** The texts of columns `from` up to but not including `until`, one for each: what a cell
      holds, a space for a cell that holds nothing or is not there, and nothing for the
      second half of a wide glyph. */
  ghost function CellTexts(row: Row, from: nat, until: nat): (r: seq<string>)
    requires from <= until
    ensures |r| == until - from
  {
    seq(until - from, i requires 0 <= i < until - from =>
      if from + i >= |row| then " "
      else if row[from + i].wideContinuation then ""
      else if row[from + i].contents == "" then " "
      else row[from + i].contents)
  }

  lemma JoinFirst(texts: seq<string>)
    requires texts != []
    ensures Join(texts, "") == texts[0] + Join(texts[1..], "")
  {
    if |texts| == 1 { assert texts[0] + "" == texts[0]; }
    assert texts[0] + "" == texts[0];
  }

  /** A row's text is the text of its columns from left to right. */
  lemma {:induction false} RowTextIs(row: Row, from: nat, until: nat)
    requires from <= until
    ensures RowText(row, from, until) == Join(CellTexts(row, from, until), "")
    decreases until - from
  {
    if from < until {
      var texts := CellTexts(row, from, until);
      assert texts[1..] == CellTexts(row, from + 1, until);
      JoinFirst(texts);
      RowTextIs(row, from + 1, until);
    }
  }

  lemma {:induction false} RowTextSplits(row: Row, from: nat, mid: nat, until: nat)
    requires from <= mid <= until
    ensures RowText(row, from, until) == RowText(row, from, mid) + RowText(row, mid, until)
    decreases mid - from
  {
    if from == mid {
      assert "" + RowText(row, mid, until) == RowText(row, mid, until);
    } else {
      RowTextSplits(row, from + 1, mid, until);
      Associate(ColumnText(row, from), RowText(row, from + 1, mid), RowText(row, mid, until));
    }
  }

  /** Lines joined by newlines are kept apart from each other. */
  ghost predicate NoNewlines(rows: seq<Row>) {
    forall i, c :: 0 <= i < |rows| && 0 <= c < |rows[i]| ==> '\n' !in rows[i][c].contents
  }

  lemma {:induction false} RowTextHasNoNewline(rows: seq<Row>, i: nat, from: nat, end: nat)
    requires NoNewlines(rows) && i < |rows|
    ensures '\n' !in RowText(rows[i], from, end)
    decreases end - from
  {
    if from < end { RowTextHasNoNewline(rows, i, from + 1, end); }
  }

  lemma TrimRightIsPrefix(s: string)
    ensures TrimRight(s) <= s
  {
    TrimEndIsPrefix(s, IsSpace);
  }
}
