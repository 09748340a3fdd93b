/** Yanking a selection (`copy_mode.rs`): the buffer is read one screenful at a time by
    moving the terminal's window. */
module Yank {
  import opened Text
  import opened Terminal

  datatype SelectionMode = Char | Line | Rect

  /** A selection in content coordinates: line 0 is the top of the live screen and
      negative lines are history. */
  datatype Selection = Selection(
    mode: SelectionMode, anchorLine: int, anchorCol: U16, cursorLine: int, cursorCol: U16)
  {
    function Top(): int { Min(anchorLine, cursorLine) }
    function Bottom(): int { Max(anchorLine, cursorLine) }
    function Total(): nat { Bottom() - Top() + 1 }
    function TopCol(): U16 { if anchorLine <= cursorLine then anchorCol else cursorCol }
    function BottomCol(): U16 { if anchorLine <= cursorLine then cursorCol else anchorCol }
    function LeftCol(): U16 { Min(anchorCol, cursorCol) }
    function RightCol(): U16 { Max(anchorCol, cursorCol) }

    function Swapped(): Selection { Selection(mode, cursorLine, cursorCol, anchorLine, anchorCol) }
  }

  /** `saturating_add(1)` on a column. */
  function After(c: U16): nat { Min(c + 1, U16_MAX) }

  /** The columns taken from a line, given whether it is the selection's first
      or last one: the first column, and the one after the last. */
  function Columns(s: Selection, cols: U16, first: bool, last: bool): (nat, nat) {
    match s.mode
    case Rect => (s.LeftCol(), After(s.RightCol()))
    case Line => (0, cols)
    case Char =>
      if s.Total() == 1 then (s.LeftCol(), After(s.RightCol()))
      else (if first then s.TopCol() else 0, After(if last then s.BottomCol() else SatSub(cols, 1)))
  }

  /** The text taken from one line. A selection within one line keeps its
      trailing blanks. */
  function LineText(s: Selection, cols: U16, row: Row, first: bool, last: bool): string {
    var (from, end) := Columns(s, cols, first, last);
    if s.mode.Char? && s.Total() == 1 then RowText(row, from, end) else TrimRight(RowText(row, from, end))
  }

  // ----- what the selection means -----

  function LineTexts(s: Selection, cols: U16, rows: seq<Row>, i: nat): (r: seq<string>)
    requires i <= |rows|
    ensures |r| == |rows| - i
    decreases |rows| - i
  {
    if i == |rows| then []
    else [LineText(s, cols, rows[i], i == 0, i == |rows| - 1)] + LineTexts(s, cols, rows, i + 1)
  }

  function Unlines(texts: seq<string>): string {
    if texts == [] then "" else texts[0] + "\n" + Unlines(texts[1..])
  }

  /** The text of a selection over its lines, each once and in order: lines are
      separated by newlines, and in line mode each one ends in a newline. */
  function Meaning(s: Selection, cols: U16, rows: seq<Row>): string {
    if s.mode.Line? then Unlines(LineTexts(s, cols, rows, 0)) else Join(LineTexts(s, cols, rows, 0), "\n")
  }

  /** The retained lines a selection covers. */
  function Retained(s: Selection, history: nat, lines: seq<Row>): seq<Row>
    requires history <= |lines|
  {
    var h: int := history;
    var from := Max(s.Top(), -h);
    var end := Min(s.Bottom() + 1, |lines| - h);
    if from < end then lines[history + from..history + end] else []
  }

  // ----- what the loop reads -----

  /** The piece added for the `k`-th line read. */
  function Piece(s: Selection, cols: U16, row: Row, k: nat): string {
    var last := k + 1 == s.Total();
    LineText(s, cols, row, k == 0, last) + (if s.mode.Line? || !last then "\n" else "")
  }

  /** The text after the first `n` of `rows` have been read. */
  function Read(s: Selection, cols: U16, rows: seq<Row>, n: nat): string
    requires n <= |rows|
  {
    if n == 0 then "" else Read(s, cols, rows, n - 1) + Piece(s, cols, rows[n - 1], n - 1)
  }

  /** The selection loop of `yank_selection`. The window is left wherever the
      last screenful was read. */
  method ReadSelection(term: Screen, s: Selection) returns (text: string)
    requires term.Valid()
    modifies term
    ensures term.Valid()
    ensures var rows := Retained(s, |term.history|, term.Lines());
            text == Read(s, term.cols, rows, |rows|)
  {
    hide Piece, LineText;
    var h: int, rows: int, cols := |term.history|, term.Rows(), term.cols;
    ghost var retained := Retained(s, h, term.Lines());
    var total := s.Total();
    var (top, bottom) := (s.Top(), s.Bottom());
    text := "";
    var absIdx: nat := 0;
    var nextAbs := top;
    while nextAbs <= bottom
      invariant term.Valid() && top <= nextAbs && absIdx <= |retained|
      invariant Max(nextAbs, -h) == Max(top, -h) + absIdx
      invariant text == Read(s, cols, retained, absIdx)
      decreases bottom - nextAbs
    {
      term.SetScrollback(Max(-nextAbs, 0));
      var actual: int := term.offset;
      var visStart, visEnd := -actual, -actual + rows - 1;
      var readStart, readEnd := Max(nextAbs, visStart), Min(bottom, visEnd);
      if readStart > readEnd { break; }
      var line := readStart;
      while line <= readEnd
        invariant term.Valid() && term.offset == actual
        invariant readStart <= line <= readEnd + 1
        invariant absIdx <= |retained| && line == Max(top, -h) + absIdx
        invariant text == Read(s, cols, retained, absIdx)
      {
        var r := line + actual;
        term.VisibleRowIsLine(r);
        assert term.VisibleRow(r) == term.Lines()[h + line] == retained[absIdx];
        text := text + Piece(s, cols, term.VisibleRow(r), absIdx);
        absIdx := absIdx + 1;
        line := line + 1;
      }
      nextAbs := readEnd + 1;
    }
  }

  /** The copy-mode fields a yank uses. */
  class CopyState {
    const term: Screen
    var anchor: Option<(U16, U16)>
    var anchorScroll: nat
    var pos: Option<(U16, U16)>
    var posScroll: Option<nat>
    var scrollOffset: nat
    var mode: SelectionMode
    var register: Option<char>
    var namedRegisters: map<char, string>
    var pasteBuffers: seq<string>

    constructor (term: Screen)
      ensures this.term == term
    {
      this.term := term;
      anchor, anchorScroll, pos, posScroll, scrollOffset := None, 0, None, None, 0;
      mode, register, namedRegisters, pasteBuffers := Char, None, map[], [];
    }

    /** Each end is read against the scroll offset it was recorded at. */
    ghost function Selected(): Selection
      requires anchor.Some? && pos.Some?
      reads this
    {
      Selection(mode, anchor.value.0 - anchorScroll, anchor.value.1,
                pos.value.0 - (if posScroll.Some? then posScroll.value else scrollOffset), pos.value.1)
    }

    /** `yank_selection`, up to the clipboard. */
    method YankSelection()
      requires term.Valid()
      modifies this, term
      ensures term.Valid()
      ensures anchor == old(anchor) && anchorScroll == old(anchorScroll) && pos == old(pos)
      ensures posScroll == old(posScroll) && scrollOffset == old(scrollOffset) && mode == old(mode)
      ensures old(anchor.None? || pos.None?) ==>
                term.offset == old(term.offset) && register == old(register)
                && namedRegisters == old(namedRegisters) && pasteBuffers == old(pasteBuffers)
      ensures old(anchor.Some? && pos.Some?) ==>
                var rows := Retained(Selected(), |term.history|, term.Lines());
                var text := Read(Selected(), term.cols, rows, |rows|);
                && term.offset == Min(scrollOffset, |term.history|)
                && register == None
                && namedRegisters == (if old(register).Some? then old(namedRegisters)[old(register).value := text]
                                      else old(namedRegisters))
                && pasteBuffers == Capped([text] + old(pasteBuffers))
    {
      hide Read, Retained;
      if anchor.None? || pos.None? { return; }
      var s := Selection(mode, anchor.value.0 - anchorScroll, anchor.value.1,
                         pos.value.0 - (if posScroll.Some? then posScroll.value else scrollOffset), pos.value.1);
      var text := ReadSelection(term, s);
      term.SetScrollback(scrollOffset);
      if register.Some? {
        namedRegisters := namedRegisters[register.value := text];
        register := None;
      }
      pasteBuffers := [text] + pasteBuffers;
      if |pasteBuffers| > 10 { pasteBuffers := pasteBuffers[..|pasteBuffers| - 1]; }
    }
  }

  /** At most ten paste buffers are kept; one more drops the oldest. */
  function Capped(buffers: seq<string>): seq<string> {
    if |buffers| > 10 then buffers[..|buffers| - 1] else buffers
  }

  // ----- the loop reads what the selection means -----

  ghost predicate InBuffer(s: Selection, history: nat, rows: nat) {
    0 <= history + s.Top() && s.Bottom() < rows
  }

  /** The pieces of the lines from `i` on, as the loop writes them. */
  function Pieces(s: Selection, cols: U16, rows: seq<Row>, i: nat): string
    requires i <= |rows|
    decreases |rows| - i
  {
    if i == |rows| then "" else Piece(s, cols, rows[i], i) + Pieces(s, cols, rows, i + 1)
  }

  lemma {:induction false} ReadIsPieces(s: Selection, cols: U16, rows: seq<Row>, n: nat)
    requires n <= |rows|
    ensures Read(s, cols, rows, n) + Pieces(s, cols, rows, n) == Pieces(s, cols, rows, 0)
  {
    hide Piece;
    if n == 0 {
      assert "" + Pieces(s, cols, rows, 0) == Pieces(s, cols, rows, 0);
    } else {
      ReadIsPieces(s, cols, rows, n - 1);
      Associate(Read(s, cols, rows, n - 1), Piece(s, cols, rows[n - 1], n - 1), Pieces(s, cols, rows, n));
    }
  }

  lemma LineModeIgnoresEnds(s: Selection, cols: U16, row: Row, first: bool, a: bool, b: bool)
    ensures s.mode.Line? ==> LineText(s, cols, row, first, a) == LineText(s, cols, row, first, b)
  {}

  /** Over all its lines, the pieces are the meaning of the rest of the selection. */
  lemma {:induction false} PiecesAreMeaning(s: Selection, cols: U16, rows: seq<Row>, i: nat)
    requires i <= |rows| && (s.mode.Line? || |rows| == s.Total())
    ensures Pieces(s, cols, rows, i) ==
              if s.mode.Line? then Unlines(LineTexts(s, cols, rows, i)) else Join(LineTexts(s, cols, rows, i), "\n")
    decreases |rows| - i
  {
    hide LineText;
    if i < |rows| {
      LineModeIgnoresEnds(s, cols, rows[i], i == 0, i == |rows| - 1, i + 1 == s.Total());
      PiecesAreMeaning(s, cols, rows, i + 1);
      var texts := LineTexts(s, cols, rows, i);
      assert texts[1..] == LineTexts(s, cols, rows, i + 1);
      if i + 1 < |rows| || s.mode.Line? {
        Associate(texts[0], "\n", Pieces(s, cols, rows, i + 1));
      } else {
        assert texts == [texts[0]] && Pieces(s, cols, rows, i + 1) == "";
      }
    }
  }

  /** For ends within the retained buffer the walk yields exactly the meaning of
      the selection over the absolute grid. */
  lemma YankRefines(s: Selection, cols: U16, history: nat, lines: seq<Row>)
    requires history <= |lines| && InBuffer(s, history, |lines| - history)
    ensures var rows := Retained(s, history, lines);
            && |rows| == s.Total()
            && (forall i :: 0 <= i < |rows| ==> rows[i] == lines[history + s.Top() + i])
            && Read(s, cols, rows, |rows|) == Meaning(s, cols, rows)
  {
    hide Piece, Read, Pieces, LineTexts, Join;
    var rows := Retained(s, history, lines);
    ReadIsPieces(s, cols, rows, |rows|);
    PiecesAreMeaning(s, cols, rows, 0);
    PiecesEnd(s, cols, rows);
  }

  lemma SwapKeepsPiece(s: Selection, cols: U16, row: Row, k: nat)
    ensures Piece(s, cols, row, k) == Piece(s.Swapped(), cols, row, k)
  {
    hide RowText, TrimRight;
    assert s.Total() == s.Swapped().Total();
    assert s.anchorLine == s.cursorLine ==> s.Total() == 1;
  }

  /** Swapping anchor and endpoint changes nothing, wherever they are. */
  lemma {:induction false} SwapKeepsYank(s: Selection, cols: U16, rows: seq<Row>, n: nat)
    requires n <= |rows|
    ensures Read(s, cols, rows, n) == Read(s.Swapped(), cols, rows, n)
  {
    hide Piece;
    if n > 0 {
      SwapKeepsYank(s, cols, rows, n - 1);
      SwapKeepsPiece(s, cols, rows[n - 1], n - 1);
    }
  }

  // ----- selections that reach beyond the buffer -----

  function Newlines(s: string): nat {
    if s == "" then 0 else (if s[0] == '\n' then 1 else 0) + Newlines(s[1..])
  }

  lemma {:induction false} NewlinesAdd(a: string, b: string)
    ensures Newlines(a + b) == Newlines(a) + Newlines(b)
  {
    if a == "" {
      assert a + b == b;
    } else {
      assert (a + b)[1..] == a[1..] + b;
      NewlinesAdd(a[1..], b);
    }
  }

  lemma {:induction false} NoNewline(s: string)
    requires '\n' !in s
    ensures Newlines(s) == 0
  {
    if s != "" { NoNewline(s[1..]); }
  }

  lemma LineTextNewlines(s: Selection, cols: U16, rows: seq<Row>, i: nat, first: bool, last: bool)
    requires NoNewlines(rows) && i < |rows|
    ensures Newlines(LineText(s, cols, rows[i], first, last)) == 0
  {
    var (from, end) := Columns(s, cols, first, last);
    RowTextHasNoNewline(rows, i, from, end);
    TrimRightIsPrefix(RowText(rows[i], from, end));
    NoNewline(LineText(s, cols, rows[i], first, last));
  }

  lemma {:induction false} ReadNewlines(s: Selection, cols: U16, rows: seq<Row>, n: nat)
    requires NoNewlines(rows) && n <= |rows| && n < s.Total()
    ensures Newlines(Read(s, cols, rows, n)) == n
  {
    hide LineText;
    if n > 0 {
      var text := LineText(s, cols, rows[n - 1], n == 1, false);
      ReadNewlines(s, cols, rows, n - 1);
      LineTextNewlines(s, cols, rows, n - 1, n == 1, false);
      NewlinesAdd(Read(s, cols, rows, n - 1), text + "\n");
      NewlinesAdd(text, "\n");
    }
  }

  lemma {:induction false} JoinNewlines(s: Selection, cols: U16, rows: seq<Row>, i: nat)
    requires NoNewlines(rows) && i < |rows|
    ensures Newlines(Join(LineTexts(s, cols, rows, i), "\n")) == |rows| - i - 1
    decreases |rows| - i
  {
    hide LineText;
    var texts := LineTexts(s, cols, rows, i);
    LineTextNewlines(s, cols, rows, i, i == 0, i == |rows| - 1);
    if i + 1 < |rows| {
      JoinNewlines(s, cols, rows, i + 1);
      assert texts[1..] == LineTexts(s, cols, rows, i + 1);
      NewlinesAdd(texts[0] + "\n", Join(texts[1..], "\n"));
      NewlinesAdd(texts[0], "\n");
    }
  }

  /** Whatever ends are recorded, the yank is the meaning of the selection over
      the lines still retained in line mode, when both ends are retained, or when
      nothing is; otherwise the last line read is not taken as the selection's
      last one, and a newline too many is written. */
  lemma YankExactlyWhen(s: Selection, cols: U16, history: nat, lines: seq<Row>)
    requires history <= |lines| && NoNewlines(lines)
    ensures var rows := Retained(s, history, lines);
            Read(s, cols, rows, |rows|) == Meaning(s, cols, rows)
            <==> s.mode.Line? || InBuffer(s, history, |lines| - history) || rows == []
  {
    hide Read, Pieces, Piece, Join, LineTexts, LineText;
    var rows := Retained(s, history, lines);
    if s.mode.Line? || InBuffer(s, history, |lines| - history) {
      ReadIsPieces(s, cols, rows, |rows|);
      PiecesAreMeaning(s, cols, rows, 0);
      PiecesEnd(s, cols, rows);
    } else if rows == [] {
      NothingRead(s, cols, rows);
    } else {
      assert |rows| < s.Total();
      ReadNewlines(s, cols, rows, |rows|);
      JoinNewlines(s, cols, rows, 0);
    }
  }

  lemma PiecesEnd(s: Selection, cols: U16, rows: seq<Row>)
    ensures Read(s, cols, rows, |rows|) + Pieces(s, cols, rows, |rows|) == Read(s, cols, rows, |rows|)
  {}

  lemma NothingRead(s: Selection, cols: U16, rows: seq<Row>)
    requires rows == []
    ensures Read(s, cols, rows, 0) == "" && Meaning(s, cols, rows) == ""
  {}

  /** An end recorded on row 20, and a pane that has shrunk to ten rows since: the yank
      of ten lines holds ten newlines, where the lines joined hold nine. */
  lemma ShrunkPaneYanksNewline(cols: U16, lines: seq<Row>)
    requires |lines| == 10 && NoNewlines(lines)
    ensures var s := Selection(Char, 0, 0, 20, 0);
            && Retained(s, 0, lines) == lines
            && Newlines(Read(s, cols, lines, 10)) == 10 && Newlines(Meaning(s, cols, lines)) == 9
  {
    hide Read, LineTexts, Join;
    var s := Selection(Char, 0, 0, 20, 0);
    assert lines[0..10] == lines;
    ReadNewlines(s, cols, lines, 10);
    JoinNewlines(s, cols, lines, 0);
  }

  // ----- the yank on the cells -----

  /** The text selected on line `i` of `n`, on the cells: a character selection runs from
      one end to the other and a block between its columns, both ends included; whole
      lines and the lines of a longer selection lose their trailing blanks. */
  ghost function SelectedText(s: Selection, cols: nat, row: Row, i: nat, n: nat): string {
    var (topCol, bottomCol) :=
      if s.anchorLine < s.cursorLine then (s.anchorCol, s.cursorCol) else (s.cursorCol, s.anchorCol);
    var left: nat := if s.anchorCol < s.cursorCol then s.anchorCol else s.cursorCol;
    var right: nat := if s.anchorCol < s.cursorCol then s.cursorCol else s.anchorCol;
    match s.mode
    case Line => TrimRight(CellsText(row, 0, cols))
    case Rect => TrimRight(CellsText(row, left, right + 1))
    case Char =>
      if n == 1 then CellsText(row, left, right + 1)
      else TrimRight(CellsText(row, if i == 0 then topCol else 0, if i == n - 1 then bottomCol + 1 else cols))
  }

  ghost function CellsText(row: Row, from: nat, until: nat): string {
    if from <= until then Join(CellTexts(row, from, until), "") else ""
  }

  lemma CellsTextIs(row: Row, from: nat, until: nat)
    ensures RowText(row, from, until) == CellsText(row, from, until)
  {
    if from <= until { RowTextIs(row, from, until); }
  }

  lemma LineTextOnCells(s: Selection, cols: U16, row: Row, i: nat, n: nat)
    requires 0 < cols && s.anchorCol < U16_MAX && s.cursorCol < U16_MAX && i < n == s.Total()
    ensures LineText(s, cols, row, i == 0, i == n - 1) == SelectedText(s, cols, row, i, n)
  {
    hide TrimRight, RowText, CellsText;
    var (from, end) := Columns(s, cols, i == 0, i == n - 1);
    CellsTextIs(row, from, end);
  }

  /** Between two ends that are both retained, the yank is the selected text of the cells,
      line by line. */
  lemma YankOnCells(s: Selection, cols: U16, history: nat, lines: seq<Row>)
    requires history <= |lines| && InBuffer(s, history, |lines| - history)
    requires 0 < cols && s.anchorCol < U16_MAX && s.cursorCol < U16_MAX
    ensures var rows := Retained(s, history, lines);
            var n := |rows|;
            var texts := seq(n, i requires 0 <= i < n => SelectedText(s, cols, rows[i], i, n));
            && n == Max(s.anchorLine, s.cursorLine) - Min(s.anchorLine, s.cursorLine) + 1
            && (forall i :: 0 <= i < n ==> rows[i] == lines[history + Min(s.anchorLine, s.cursorLine) + i])
            && Read(s, cols, rows, n) ==
                 if s.mode == Line then Join(texts, "\n") + "\n" else Join(texts, "\n")
  {
    hide Read, LineText, SelectedText, Join, Unlines;
    var rows := Retained(s, history, lines);
    var n := |rows|;
    var texts := seq(n, i requires 0 <= i < n => SelectedText(s, cols, rows[i], i, n));
    YankRefines(s, cols, history, lines);
    LineTextsOnCells(s, cols, rows, 0);
    assert texts[0..] == texts;
    if s.mode.Line? { UnlinesJoin(texts); }
  }

  lemma {:induction false} LineTextsOnCells(s: Selection, cols: U16, rows: seq<Row>, k: nat)
    requires 0 < cols && s.anchorCol < U16_MAX && s.cursorCol < U16_MAX && k <= |rows| == s.Total()
    ensures var n := |rows|;
            LineTexts(s, cols, rows, k)
            == seq(n, i requires 0 <= i < n => SelectedText(s, cols, rows[i], i, n))[k..]
    decreases |rows| - k
  {
    hide LineText, SelectedText;
    var n := |rows|;
    var texts := seq(n, i requires 0 <= i < n => SelectedText(s, cols, rows[i], i, n));
    if k < n {
      LineTextOnCells(s, cols, rows[k], k, n);
      LineTextsOnCells(s, cols, rows, k + 1);
      assert texts[k..] == [texts[k]] + texts[k + 1..];
    }
  }

  lemma {:induction false} UnlinesJoin(texts: seq<string>)
    requires texts != []
    ensures Unlines(texts) == Join(texts, "\n") + "\n"
  {
    if |texts| == 1 {
      assert texts[1..] == [] && texts[0] + "\n" + "" == texts[0] + "\n";
    } else {
      UnlinesJoin(texts[1..]);
      Associate(texts[0] + "\n", Join(texts[1..], "\n"), "\n");
    }
  }
}
