/** `capture-pane` over an explicit range (`copy_mode.rs`): a fast path over the
    rows on view, and a walk through the scrollback. */
module Capture {
  import opened Text
  import opened Terminal
  import opened Yank

  type I32 = n: int | -0x8000_0000 <= n < 0x8000_0000

  const ALL_HISTORY: I32 := -0x8000_0000

  /** One end of `compute_capture_range`: an `i32` narrowed to 16 bits, then
      clamped to the last row. */
  function RangeEnd(v: Option<I32>, lastRow: nat, default: nat): nat {
    match v
    case None => default
    case Some(n) => if n < 0 then 0 else Min(n % 0x1_0000, lastRow)
  }

  /** The first and last line to capture, relative to the top of the live screen. */
  function WalkStart(s: I32, history: nat): int {
    if s == ALL_HISTORY then -(history as int) else Max(s, -(history as int))
  }

  function WalkEnd(e: Option<I32>, history: nat, lastRow: nat): int {
    match e
    case None => lastRow
    case Some(n) => if n < 0 then Max(n, -(history as int)) else Min(n, lastRow)
  }

  predicate NeedsScrollback(s: Option<I32>) { s.Some? && s.value < 0 }

  /** The lines a capture covers, from the first to past the last, with the window
      at `offset`. The fast path counts rows from the top of the view, the walk
      from the top of the live screen. */
  function CapturedRange(history: nat, lastRow: nat, offset: nat, s: Option<I32>, e: Option<I32>): (int, int) {
    if NeedsScrollback(s) then (history + WalkStart(s.value, history), history + WalkEnd(e, history, lastRow) + 1)
    else (history - offset + RangeEnd(s, lastRow, 0), history - offset + RangeEnd(e, lastRow, lastRow) + 1)
  }

  function Captured(term: seq<Row>, history: nat, offset: nat, s: Option<I32>, e: Option<I32>): seq<Row>
    requires history < |term| && offset <= history
  {
    var (from, end) := CapturedRange(history, |term| - history - 1, offset, s, e);
    Slice(term, from, end)
  }

  function Slice(rows: seq<Row>, from: int, end: int): seq<Row>
    requires 0 <= from <= |rows| && end <= |rows|
  {
    if from < end then rows[from..end] else []
  }

  function CapturedLine(row: Row, cols: nat, keepTrailing: bool): string {
    (if keepTrailing then RowText(row, 0, cols) else TrimRight(RowText(row, 0, cols))) + "\n"
  }

  function CapturedLines(rows: seq<Row>, cols: nat, keepTrailing: bool): string {
    if rows == [] then ""
    else CapturedLines(rows[..|rows| - 1], cols, keepTrailing) + CapturedLine(rows[|rows| - 1], cols, keepTrailing)
  }

  /** A capture that is a single blank line counts as empty. */
  function CaptureText(rows: seq<Row>, cols: nat, keepTrailing: bool): string {
    var t := CapturedLines(rows, cols, keepTrailing);
    if t == "\n" then "" else t
  }

  lemma OneMoreLine(rows: seq<Row>, n: nat, cols: nat, keepTrailing: bool)
    requires n < |rows|
    ensures CapturedLines(rows[..n + 1], cols, keepTrailing)
         == CapturedLines(rows[..n], cols, keepTrailing) + CapturedLine(rows[n], cols, keepTrailing)
  {
    hide CapturedLine;
    assert rows[..n + 1][..n] == rows[..n];
  }

  /** The rows on view, read without moving the window. */
  method CaptureView(term: Screen, start: nat, end: nat, keepTrailing: bool) returns (text: string)
    requires term.Valid() && start <= term.Rows() && end < term.Rows()
    ensures var top := |term.history| - term.offset;
            text == CapturedLines(Slice(term.Lines(), top + start, top + end + 1), term.cols, keepTrailing)
  {
    hide CapturedLine, CapturedLines;
    var cols := term.cols;
    ghost var top := |term.history| - term.offset;
    ghost var rows := Slice(term.Lines(), top + start, top + end + 1);
    NoLines(cols, keepTrailing);
    text := "";
    for r := start to Max(start, end + 1)
      invariant r - start <= |rows|
      invariant text == CapturedLines(rows[..r - start], cols, keepTrailing)
    {
      term.VisibleRowIsLine(r);
      OneMoreLine(rows, r - start, cols, keepTrailing);
      text := text + CapturedLine(term.VisibleRow(r), cols, keepTrailing);
    }
    assert rows[..|rows|] == rows;
  }

  /** The walk through the scrollback; the window is left where it ends. */
  method CaptureWalk(term: Screen, startLine: int, endLine: int, keepTrailing: bool) returns (text: string)
    requires term.Valid()
    requires 0 <= |term.history| + startLine && startLine <= endLine < term.Rows()
    modifies term
    ensures term.Valid()
    ensures text == CapturedLines(Slice(term.Lines(), |term.history| + startLine, |term.history| + endLine + 1),
                                  term.cols, keepTrailing)
  {
    hide CapturedLine, CapturedLines;
    var cols, lastRow := term.cols, term.Rows() - 1;
    ghost var rows := term.Lines()[|term.history| + startLine..|term.history| + endLine + 1];
    NoLines(cols, keepTrailing);
    text := "";
    var next := startLine;
    while next <= endLine
      invariant term.Valid() && startLine <= next <= endLine + 1
      invariant text == CapturedLines(rows[..next - startLine], cols, keepTrailing)
    {
      term.SetScrollback(Max(-next, 0));
      var actual: int := term.offset;
      var readStart, readEnd := Max(next, -actual), Min(endLine, -actual + lastRow);
      if readStart > readEnd { break; }
      for line := readStart to readEnd + 1
        invariant term.Valid() && term.offset == actual
        invariant text == CapturedLines(rows[..line - startLine], cols, keepTrailing)
      {
        term.VisibleRowIsLine(line + actual);
        OneMoreLine(rows, line - startLine, cols, keepTrailing);
        text := text + CapturedLine(term.VisibleRow(line + actual), cols, keepTrailing);
      }
      next := readEnd + 1;
    }
    assert rows[..|rows|] == rows;
  }

  /** `capture_active_pane_range`: the window is moved and put back. */
  method CapturePaneRange(term: Screen, s: Option<I32>, e: Option<I32>, keepTrailing: bool) returns (text: string)
    requires term.Valid()
    modifies term
    ensures term.Valid() && term.offset == old(term.offset)
    ensures text == CaptureText(Captured(term.Lines(), |term.history|, old(term.offset), s, e), term.cols, keepTrailing)
  {
    hide CapturedLines;
    NoLines(term.cols, keepTrailing);
    var lastRow := term.Rows() - 1;
    if !NeedsScrollback(s) {
      text := CaptureView(term, RangeEnd(s, lastRow, 0), RangeEnd(e, lastRow, lastRow), keepTrailing);
    } else {
      var saved := term.offset;
      var startLine, endLine := WalkStart(s.value, |term.history|), WalkEnd(e, |term.history|, lastRow);
      if startLine > endLine { return ""; }
      text := CaptureWalk(term, startLine, endLine, keepTrailing);
      term.SetScrollback(saved);
    }
    if text == "\n" { text := ""; }
  }

  lemma NoLines(cols: nat, keepTrailing: bool)
    ensures CapturedLines([], cols, keepTrailing) == ""
  {}

  /** Asking for all history captures the whole buffer, wherever the window is. */
  lemma AllHistoryIsWholeBuffer(lines: seq<Row>, history: nat, offset: nat)
    requires history < |lines| && offset <= history
    ensures Captured(lines, history, offset, Some(-0x8000_0000), None) == lines
  {
    assert lines[0..|lines|] == lines;
  }

  /** The lines that exist between two positions counted from the top of the live
      screen, both included; no start is the top, no end the last row. */
  function WantedRange(history: nat, lastRow: nat, s: Option<I32>, e: Option<I32>): (int, int) {
    var from := if s.None? then 0 else if s.value == ALL_HISTORY then -(history as int) else s.value;
    var until := if e.None? then lastRow as int else e.value;
    (Max(history + from, 0), Min(history + until, history + lastRow) + 1)
  }

  ghost predicate SameLines(a: (int, int), b: (int, int)) { a == b || (a.0 >= a.1 && b.0 >= b.1) }

  /** When a capture covers what was asked for. Walking back, only a range that
      lies wholly before the history goes wrong: it yields the oldest line. On the
      fast path the window must be at the bottom and narrowing the end to 16 bits
      must not take it off the last row; for a range that covers nothing the end,
      narrowed, must come before the narrowed start and before the last row. */
  predicate CoversWanted(history: nat, lastRow: nat, offset: nat, s: Option<I32>, e: Option<I32>) {
    var from := if s.None? then 0 else s.value;
    var until := if e.None? then lastRow as int else e.value;
    if from < 0 then until >= -(history as int) || from > -(history as int)
    else if until < from || from > lastRow then
      var end := if until < 0 then 0 else until % 0x1_0000;
      end < from % 0x1_0000 && end < lastRow
    else offset == 0 && (until <= lastRow || until % 0x1_0000 >= lastRow)
  }

  /** A capture covers exactly the wanted lines that exist, for any two ends
      whatever, just when `CoversWanted`. */
  lemma CaptureIsWantedExactlyWhen(history: nat, lastRow: nat, offset: nat, s: Option<I32>, e: Option<I32>)
    requires lastRow < U16_MAX && offset <= history
    ensures SameLines(CapturedRange(history, lastRow, offset, s, e), WantedRange(history, lastRow, s, e))
       <==> CoversWanted(history, lastRow, offset, s, e)
  {}

  /** In those cases the captured rows are the wanted rows of the buffer. */
  lemma CaptureIsWanted(lines: seq<Row>, history: nat, offset: nat, s: Option<I32>, e: Option<I32>)
    requires history < |lines| <= history + U16_MAX && offset <= history
    requires CoversWanted(history, |lines| - history - 1, offset, s, e)
    ensures var (from, end) := WantedRange(history, |lines| - history - 1, s, e);
            Captured(lines, history, offset, s, e) == if from < end then lines[from..end] else []
  {
    CaptureIsWantedExactlyWhen(history, |lines| - history - 1, offset, s, e);
  }

  /** A screen of three rows over five lines of history, scrolled back by three: asked
      for the screen, the capture gives the three lines on view instead. */
  lemma ScrolledViewIsCaptured(lines: seq<Row>)
    requires |lines| == 8
    ensures !CoversWanted(5, 2, 3, None, None) && !CoversWanted(5, 2, 3, Some(0), Some(2))
    ensures WantedRange(5, 2, None, None) == WantedRange(5, 2, Some(0), Some(2)) == (5, 8)
    ensures Captured(lines, 5, 3, None, None) == Captured(lines, 5, 3, Some(0), Some(2)) == lines[2..5]
  {}

  /** The fast path narrows to 16 bits before clamping: row 65,536 is read as the
      top row instead of the last. */
  lemma WideRowWraps(lastRow: nat)
    requires 0 < lastRow
    ensures RangeEnd(Some(0x1_0000), lastRow, 0) == 0 != Min(0x1_0000, lastRow)
  {}

  // ----- the capture on the cells -----

  /** A captured line holds the texts of all columns, without its trailing white space
      unless that is kept, and ends in a newline. */
  lemma CapturedLineIs(row: Row, cols: nat, keepTrailing: bool)
    ensures var text := Join(CellTexts(row, 0, cols), "");
            CapturedLine(row, cols, keepTrailing) == (if keepTrailing then text else TrimRight(text)) + "\n"
  {
    hide RowText, Join, TrimRight;
    RowTextIs(row, 0, cols);
  }

  function LineTexts(rows: seq<Row>, cols: nat, keepTrailing: bool): seq<string> {
    seq(|rows|, i requires 0 <= i < |rows| => CapturedLine(rows[i], cols, keepTrailing))
  }

  lemma LineTextsGrow(rows: seq<Row>, cols: nat, keepTrailing: bool)
    requires rows != []
    ensures LineTexts(rows, cols, keepTrailing)
         == LineTexts(rows[..|rows| - 1], cols, keepTrailing) + [CapturedLine(rows[|rows| - 1], cols, keepTrailing)]
  {
    hide CapturedLine;
  }

  /** Captured lines follow each other; one blank line alone counts as nothing. */
  lemma {:induction false} CapturedLinesAre(rows: seq<Row>, cols: nat, keepTrailing: bool)
    ensures var text := Join(LineTexts(rows, cols, keepTrailing), "");
            && CapturedLines(rows, cols, keepTrailing) == text
            && CaptureText(rows, cols, keepTrailing) == if text == "\n" then "" else text
  {
    hide CapturedLine;
    if rows != [] {
      hide LineTexts, Join;
      CapturedLinesAre(rows[..|rows| - 1], cols, keepTrailing);
      LineTextsGrow(rows, cols, keepTrailing);
      var before := LineTexts(rows[..|rows| - 1], cols, keepTrailing);
      var last := CapturedLine(rows[|rows| - 1], cols, keepTrailing);
      assert (before + [last])[..|before|] == before;
      JoinLast(before + [last]);
    }
  }

  lemma {:induction false} JoinLast(texts: seq<string>)
    requires texts != []
    ensures Join(texts, "") == Join(texts[..|texts| - 1], "") + texts[|texts| - 1]
  {
    if |texts| > 1 {
      var n := |texts| - 1;
      JoinLast(texts[1..]);
      JoinFirst(texts);
      JoinFirst(texts[..n]);
      assert texts[1..][..n - 1] == texts[..n][1..];
      Associate(texts[0], Join(texts[..n][1..], ""), texts[n]);
    }
  }
}
