/** The styled capture (`capture-pane -e`, `copy_mode.rs`): cells become text with
    an SGR sequence wherever the style changes. */
module Styled {
  import opened Text
  import opened Terminal
  import opened Sgr
  import opened Capture

  /** The delta tracker: the style written last, with `None` for "unknown". */
  datatype Tracker = Tracker(
    fg: Option<Color>, bg: Option<Color>, ulcolor: Option<Color>, ul: Underline, intensity: Intensity,
    italic: bool, inverse: bool, blink: bool, hidden: bool, strike: bool)

  const UNTOUCHED := Tracker(None, None, None, NoUnderline, Normal, false, false, false, false, false)

  function Tracking(s: Style): Tracker {
    Tracker(Some(s.fg), Some(s.bg), Some(s.ulcolor), s.ul, s.intensity,
            s.italic, s.inverse, s.blink, s.hidden, s.strike)
  }

  predicate Changed(t: Tracker, s: Style) {
    || Some(s.fg) != t.fg || Some(s.bg) != t.bg || s.intensity != t.intensity || s.italic != t.italic
    || s.ul != t.ul || Some(s.ulcolor) != t.ulcolor || s.blink != t.blink
    || s.inverse != t.inverse || s.hidden != t.hidden || s.strike != t.strike
  }

  /** What a row that used any style leaves in the tracker; strikethrough is not
      among the fields it clears. */
  function AfterReset(t: Tracker): Tracker {
    Tracker(None, None, Some(Default), NoUnderline, Normal, false, false, false, false, t.strike)
  }

  /** A column's contribution: a sequence if the style changed, and its text. */
  datatype Piece = Piece(sgr: Option<string>, text: string)

  datatype Visited = Visited(pieces: seq<Piece>, tracker: Tracker, active: bool)

  /** One column of a row. A column beyond the stored cells is a space in whatever
      style is in force; the second half of a wide glyph is skipped. */
  function Visit(row: Row, c: nat, v: Visited): Visited {
    if c >= |row| then v.(pieces := v.pieces + [Piece(None, " ")])
    else if row[c].wideContinuation then v
    else if Changed(v.tracker, row[c].style) then
      Visited(v.pieces + [Piece(Some(SetStyle(row[c].style)), CellText(row[c]))], Tracking(row[c].style), true)
    else v.(pieces := v.pieces + [Piece(None, CellText(row[c]))])
  }

  function VisitTo(row: Row, n: nat, t: Tracker): Visited {
    if n == 0 then Visited([], t, false) else Visit(row, n - 1, VisitTo(row, n - 1, t))
  }

  /** How many pieces are kept: all of them, or up to the last that is not blank. */
  function Kept(pieces: seq<Piece>, keepTrailing: bool): (n: nat)
    ensures n <= |pieces|
  {
    if keepTrailing || pieces == [] || Trim(pieces[|pieces| - 1].text) != "" then |pieces|
    else Kept(pieces[..|pieces| - 1], keepTrailing)
  }

  function PieceText(p: Piece): string { (if p.sgr.Some? then p.sgr.value else "") + p.text }

  function Emit(pieces: seq<Piece>): string {
    if pieces == [] then "" else PieceText(pieces[0]) + Emit(pieces[1..])
  }

  /** The line written for a row, without its newline. */
  function StyledLine(row: Row, cols: nat, t: Tracker, keepTrailing: bool): string {
    var v := VisitTo(row, cols, t);
    Emit(v.pieces[..Kept(v.pieces, keepTrailing)]) + (if v.active then RESET else "")
  }

  function NextTracker(row: Row, cols: nat, t: Tracker): Tracker {
    var v := VisitTo(row, cols, t);
    if v.active then AfterReset(v.tracker) else v.tracker
  }

  /** The column loop of the row renderer. */
  method VisitColumns(row: Row, cols: nat, t: Tracker) returns (v: Visited)
    ensures v == VisitTo(row, cols, t)
  {
    hide SetStyle, Changed;
    var pieces: seq<Piece> := [];
    var tracker, active := t, false;
    for c := 0 to cols
      invariant Visited(pieces, tracker, active) == VisitTo(row, c, t)
    {
      if c < |row| {
        var cell := row[c];
        if cell.wideContinuation { continue; }
        var sgr: Option<string> := None;
        if Changed(tracker, cell.style) {
          sgr := Some(SetStyle(cell.style));
          tracker, active := Tracking(cell.style), true;
        }
        pieces := pieces + [Piece(sgr, CellText(cell))];
      } else {
        pieces := pieces + [Piece(None, " ")];
      }
    }
    v := Visited(pieces, tracker, active);
  }

  /** The backward search for the last piece that is not blank. */
  method KeepPieces(pieces: seq<Piece>, keepTrailing: bool) returns (kept: nat)
    ensures kept == Kept(pieces, keepTrailing)
  {
    hide Trim;
    kept := |pieces|;
    if keepTrailing { return; }
    assert pieces[..kept] == pieces;
    while kept > 0 && Trim(pieces[kept - 1].text) == ""
      invariant kept <= |pieces|
      invariant Kept(pieces[..kept], keepTrailing) == Kept(pieces, keepTrailing)
    {
      assert pieces[..kept][..kept - 1] == pieces[..kept - 1];
      kept := kept - 1;
    }
  }

  /** The row renderer: the closure `render_styled_row`. */
  method RenderStyledRow(row: Row, cols: nat, keepTrailing: bool, t: Tracker) returns (text: string, after: Tracker)
    ensures text == StyledLine(row, cols, t, keepTrailing) + "\n"
    ensures after == NextTracker(row, cols, t)
  {
    hide Emit, PieceText, Kept, VisitTo;
    var v := VisitColumns(row, cols, t);
    var n := KeepPieces(v.pieces, keepTrailing);
    ghost var kept := v.pieces[..n];
    text := "";
    assert kept[0..] == kept && "" + Emit(kept) == Emit(kept);
    for c := 0 to n
      invariant text + Emit(kept[c..]) == Emit(kept)
    {
      EmitSplits(kept, c);
      Associate(text, PieceText(kept[c]), Emit(kept[c + 1..]));
      text := text + PieceText(v.pieces[c]);
    }
    NothingEmitted();
    assert kept[n..] == [] && text + "" == text;
    after := v.tracker;
    if v.active {
      text := text + RESET;
      after := AfterReset(v.tracker);
    }
    text := text + "\n";
  }

  lemma EmitSplits(pieces: seq<Piece>, c: nat)
    requires c < |pieces|
    ensures Emit(pieces[c..]) == PieceText(pieces[c]) + Emit(pieces[c + 1..])
  {
    hide PieceText;
    assert pieces[c..][1..] == pieces[c + 1..];
  }

  lemma NothingEmitted()
    ensures Emit([]) == ""
  {}

  // ----- several rows -----

  function StyledRows(rows: seq<Row>, cols: nat, t: Tracker, keepTrailing: bool): string {
    if rows == [] then ""
    else StyledLine(rows[0], cols, t, keepTrailing) + "\n"
         + StyledRows(rows[1..], cols, NextTracker(rows[0], cols, t), keepTrailing)
  }

  function TrackerAfter(rows: seq<Row>, cols: nat, t: Tracker): Tracker {
    if rows == [] then t else TrackerAfter(rows[1..], cols, NextTracker(rows[0], cols, t))
  }

  lemma {:induction false} OneMoreRow(rows: seq<Row>, n: nat, cols: nat, t: Tracker, keepTrailing: bool)
    requires n < |rows|
    ensures var before := TrackerAfter(rows[..n], cols, t);
            && TrackerAfter(rows[..n + 1], cols, t) == NextTracker(rows[n], cols, before)
            && StyledRows(rows[..n + 1], cols, t, keepTrailing)
               == StyledRows(rows[..n], cols, t, keepTrailing)
                  + (StyledLine(rows[n], cols, before, keepTrailing) + "\n")
  {
    hide StyledLine, NextTracker;
    if n == 0 {
      assert rows[..1] == [rows[0]] && rows[..0] == [];
    } else {
      var t1 := NextTracker(rows[0], cols, t);
      OneMoreRow(rows[1..], n - 1, cols, t1, keepTrailing);
      assert rows[..n][1..] == rows[1..][..n - 1] && rows[..n + 1][1..] == rows[1..][..n];
      assert rows[..n][0] == rows[0] && rows[..n + 1][0] == rows[0];
      Associate(StyledLine(rows[0], cols, t, keepTrailing) + "\n",
                StyledRows(rows[1..][..n - 1], cols, t1, keepTrailing),
                StyledLine(rows[n], cols, TrackerAfter(rows[..n], cols, t), keepTrailing) + "\n");
    }
  }

  /** Where the last line of a text without its final newline starts. */
  function LastLine(text: string): (n: nat)
    ensures n <= |text|
  {
    if text == "" || text[|text| - 1] == '\n' then |text| else LastLine(text[..|text| - 1])
  }

  function StripResets(s: string): string
    decreases |s|
  {
    if RESET <= s then StripResets(s[|RESET|..]) else s
  }

  /** What is left once trailing lines that hold nothing but resets are dropped. */
  function TrimTrailing(text: string): string
    decreases |text|
  {
    if text == "" || text[|text| - 1] != '\n' then text
    else
      var start := LastLine(text[..|text| - 1]);
      if StripResets(text[start..|text| - 1]) != "" then text else TrimTrailing(text[..start])
  }

  /** `trim_trailing_empty_styled_lines`. */
  method TrimTrailingLines(text: string) returns (r: string)
    ensures r == TrimTrailing(text)
  {
    hide LastLine;
    r := text;
    while r != "" && r[|r| - 1] == '\n'
      invariant TrimTrailing(r) == TrimTrailing(text)
      decreases |r|
    {
      var start := LastLine(r[..|r| - 1]);
      ghost var line := r[start..|r| - 1];
      var remaining := r[start..|r| - 1];
      while RESET <= remaining
        invariant StripResets(remaining) == StripResets(line)
        decreases |remaining|
      {
        remaining := remaining[|RESET|..];
      }
      if remaining != "" { return; }
      r := r[..start];
    }
  }

  /** `capture_active_pane_styled`. */
  method CapturePaneStyled(term: Screen, s: Option<I32>, e: Option<I32>, keepTrailing: bool) returns (text: string)
    requires term.Valid()
    modifies term
    ensures term.Valid() && term.offset == old(term.offset)
    ensures text == TrimTrailing(StyledRows(Captured(term.Lines(), |term.history|, old(term.offset), s, e),
                                            term.cols, UNTOUCHED, keepTrailing))
  {
    hide StyledRows, TrimTrailing;
    NoRows(term.cols, keepTrailing);
    var lastRow := term.Rows() - 1;
    if !NeedsScrollback(s) {
      text := StyledView(term, RangeEnd(s, lastRow, 0), RangeEnd(e, lastRow, lastRow), keepTrailing);
    } else {
      var saved := term.offset;
      var startLine, endLine := WalkStart(s.value, |term.history|), WalkEnd(e, |term.history|, lastRow);
      if startLine > endLine { return ""; }
      text := StyledWalk(term, startLine, endLine, keepTrailing);
      term.SetScrollback(saved);
    }
    text := TrimTrailingLines(text);
  }

  lemma NoRows(cols: nat, keepTrailing: bool)
    ensures StyledRows([], cols, UNTOUCHED, keepTrailing) == "" && TrackerAfter([], cols, UNTOUCHED) == UNTOUCHED
    ensures TrimTrailing("") == ""
  {}

  method StyledView(term: Screen, start: nat, end: nat, keepTrailing: bool) returns (text: string)
    requires term.Valid() && start <= term.Rows() && end < term.Rows()
    ensures var top := |term.history| - term.offset;
            text == StyledRows(Slice(term.Lines(), top + start, top + end + 1), term.cols, UNTOUCHED, keepTrailing)
  {
    hide StyledRows, StyledLine, NextTracker, TrackerAfter;
    var cols := term.cols;
    ghost var top := |term.history| - term.offset;
    ghost var rows := Slice(term.Lines(), top + start, top + end + 1);
    NoRows(cols, keepTrailing);
    text := "";
    var tracker := UNTOUCHED;
    for r := start to Max(start, end + 1)
      invariant r - start <= |rows| && tracker == TrackerAfter(rows[..r - start], cols, UNTOUCHED)
      invariant text == StyledRows(rows[..r - start], cols, UNTOUCHED, keepTrailing)
    {
      term.VisibleRowIsLine(r);
      OneMoreRow(rows, r - start, cols, UNTOUCHED, keepTrailing);
      var line;
      line, tracker := RenderStyledRow(term.VisibleRow(r), cols, keepTrailing, tracker);
      text := text + line;
    }
    assert rows[..|rows|] == rows;
  }

  method StyledWalk(term: Screen, startLine: int, endLine: int, keepTrailing: bool) returns (text: string)
    requires term.Valid()
    requires 0 <= |term.history| + startLine && startLine <= endLine < term.Rows()
    modifies term
    ensures term.Valid()
    ensures text == StyledRows(Slice(term.Lines(), |term.history| + startLine, |term.history| + endLine + 1),
                               term.cols, UNTOUCHED, keepTrailing)
  {
    hide StyledRows, StyledLine, NextTracker, TrackerAfter;
    var cols, lastRow := term.cols, term.Rows() - 1;
    ghost var rows := term.Lines()[|term.history| + startLine..|term.history| + endLine + 1];
    NoRows(cols, keepTrailing);
    text := "";
    var tracker := UNTOUCHED;
    var next := startLine;
    while next <= endLine
      invariant term.Valid() && startLine <= next <= endLine + 1
      invariant tracker == TrackerAfter(rows[..next - startLine], cols, UNTOUCHED)
      invariant text == StyledRows(rows[..next - startLine], cols, UNTOUCHED, keepTrailing)
    {
      term.SetScrollback(Max(-next, 0));
      var actual: int := term.offset;
      var readStart, readEnd := Max(next, -actual), Min(endLine, -actual + lastRow);
      if readStart > readEnd { break; }
      for line := readStart to readEnd + 1
        invariant term.Valid() && term.offset == actual
        invariant tracker == TrackerAfter(rows[..line - startLine], cols, UNTOUCHED)
        invariant text == StyledRows(rows[..line - startLine], cols, UNTOUCHED, keepTrailing)
      {
        term.VisibleRowIsLine(line + actual);
        OneMoreRow(rows, line - startLine, cols, UNTOUCHED, keepTrailing);
        var piece;
        piece, tracker := RenderStyledRow(term.VisibleRow(line + actual), cols, keepTrailing, tracker);
        text := text + piece;
      }
      next := readEnd + 1;
    }
    assert rows[..|rows|] == rows;
  }

  // ----- what the capture shows -----

  /** The cell's text as it should appear, in the cell's own style. */
  datatype Seen = Seen(text: string, style: Style)

  /** Every visited column in order, as the screen has it: a column without a cell is
      a blank in the default style. */
  function SeenTo(row: Row, n: nat): seq<Seen> {
    if n == 0 then []
    else
      var before := SeenTo(row, n - 1);
      if n - 1 >= |row| then before + [Seen(" ", PLAIN)]
      else if row[n - 1].wideContinuation then before
      else before + [Seen(CellText(row[n - 1]), row[n - 1].style)]
  }

  /** Every visited column as the capture writes it: for a column without a cell it
      writes a blank and no sequence, so that the style before it runs on. */
  function WrittenTo(row: Row, n: nat): seq<Seen> {
    if n == 0 then []
    else
      var before := WrittenTo(row, n - 1);
      if n - 1 >= |row| then before + [Seen(" ", LastStyle(before))]
      else if row[n - 1].wideContinuation then before
      else before + [Seen(CellText(row[n - 1]), row[n - 1].style)]
  }

  function LastStyle(seen: seq<Seen>): Style { if seen == [] then PLAIN else seen[|seen| - 1].style }

  function Drawn(seen: seq<Seen>): seq<Glyph> {
    if seen == [] then [] else Glyphs(seen[0].text, seen[0].style) + Drawn(seen[1..])
  }

  /** A piece shows a cell when the style before it is `before`. */
  ghost predicate Fits(p: Piece, cell: Seen, before: Style) {
    && p.text == cell.text
    && (p.sgr.Some? ==> p.sgr.value == SetStyle(cell.style))
    && (p.sgr.None? ==> cell.style == before)
  }

  function StyleBefore(seen: seq<Seen>, i: nat, from: Style): Style
    requires i <= |seen|
  {
    if i == 0 then from else seen[i - 1].style
  }

  /** The pieces produce the seen cells when shown from style `from`. */
  ghost predicate Produces(pieces: seq<Piece>, seen: seq<Seen>, from: Style) {
    && |pieces| == |seen|
    && forall i :: 0 <= i < |pieces| ==> Fits(pieces[i], seen[i], StyleBefore(seen, i, from))
  }

  /** After the first piece a sequence is written just where the style changes. */
  ghost predicate OnChange(pieces: seq<Piece>, seen: seq<Seen>) {
    && |pieces| == |seen|
    && forall i :: 0 < i < |pieces| ==> (pieces[i].sgr.Some? <==> seen[i].style != seen[i - 1].style)
  }

  /** A visit in progress. It is active from the first stored cell on. */
  ghost predicate Renders(v: Visited, seen: seq<Seen>, t: Tracker) {
    && Produces(v.pieces, seen, PLAIN) && OnChange(v.pieces, seen)
    && (if v.active then seen != [] && v.pieces[0].sgr.Some? && v.tracker == Tracking(LastStyle(seen))
        else v.tracker == t && (forall i :: 0 <= i < |seen| ==> seen[i].style == PLAIN && v.pieces[i].sgr.None?))
  }

  /** At a row start the tracker knows no foreground, so that the first cell always
      writes its style; from then on a sequence is written just where the style changes. */
  lemma {:induction false} VisitProduces(row: Row, n: nat, t: Tracker)
    requires t.fg.None?
    ensures Renders(VisitTo(row, n, t), WrittenTo(row, n), t)
    ensures n <= |row| && !VisitTo(row, n, t).active ==> WrittenTo(row, n) == []
  {
    hide Renders, VisitTo, WrittenTo, CellText, SetStyle, Changed;
    if n == 0 {
      NothingVisited(row, t);
    } else {
      VisitProduces(row, n - 1, t);
      VisitUnfolds(row, n, t);
      var v, seen := VisitTo(row, n - 1, t), WrittenTo(row, n - 1);
      if n - 1 >= |row| {
        MissingRenders(v, seen, t);
      } else if !row[n - 1].wideContinuation {
        CellRenders(v, seen, t, row[n - 1]);
      }
    }
  }

  lemma NothingVisited(row: Row, t: Tracker)
    ensures Renders(VisitTo(row, 0, t), WrittenTo(row, 0), t) && WrittenTo(row, 0) == []
  {}

  lemma MissingRenders(v: Visited, seen: seq<Seen>, t: Tracker)
    requires Renders(v, seen, t)
    ensures Renders(v.(pieces := v.pieces + [Piece(None, " ")]), seen + [Seen(" ", LastStyle(seen))], t)
  {
    hide SetStyle, Produces, Tracking;
    LengthsAgree(v.pieces, seen, PLAIN);
    OneMorePiece(v.pieces, seen, PLAIN, Piece(None, " "), Seen(" ", LastStyle(seen)));
  }

  lemma CellRenders(v: Visited, seen: seq<Seen>, t: Tracker, cell: Cell)
    requires t.fg.None? && Renders(v, seen, t) && (!v.active ==> seen == [])
    ensures var sgr := if Changed(v.tracker, cell.style) then Some(SetStyle(cell.style)) else None;
            var piece := Piece(sgr, CellText(cell));
            Renders(Visited(v.pieces + [piece], if piece.sgr.Some? then Tracking(cell.style) else v.tracker,
                            v.active || piece.sgr.Some?),
                    seen + [Seen(CellText(cell), cell.style)], t)
    ensures !v.active ==> Changed(v.tracker, cell.style)
  {
    hide SetStyle, CellText, Changed, Produces, Tracking;
    LengthsAgree(v.pieces, seen, PLAIN);
    ChangedMeans(t, cell.style);
    UnchangedMeans(LastStyle(seen), cell.style);
    OneMorePiece(v.pieces, seen, PLAIN,
                 Piece(if Changed(v.tracker, cell.style) then Some(SetStyle(cell.style)) else None, CellText(cell)),
                 Seen(CellText(cell), cell.style));
  }

  lemma VisitUnfolds(row: Row, n: nat, t: Tracker)
    requires n > 0
    ensures VisitTo(row, n, t) == Visit(row, n - 1, VisitTo(row, n - 1, t))
    ensures var before := WrittenTo(row, n - 1);
            WrittenTo(row, n) ==
              if n - 1 >= |row| then before + [Seen(" ", LastStyle(before))]
              else if row[n - 1].wideContinuation then before
              else before + [Seen(CellText(row[n - 1]), row[n - 1].style)]
  {
    hide Visit, CellText;
  }

  lemma ChangedMeans(t: Tracker, s: Style)
    ensures t.fg.None? ==> Changed(t, s)
  {}

  lemma UnchangedMeans(before: Style, s: Style)
    ensures Changed(Tracking(before), s) <==> before != s
  {}

  lemma LengthsAgree(pieces: seq<Piece>, seen: seq<Seen>, from: Style)
    requires Produces(pieces, seen, from)
    ensures |pieces| == |seen|
  {}

  lemma OneMorePiece(pieces: seq<Piece>, seen: seq<Seen>, from: Style, p: Piece, cell: Seen)
    requires Produces(pieces, seen, from) && Fits(p, cell, StyleBefore(seen, |seen|, from))
    ensures Produces(pieces + [p], seen + [cell], from)
  {
    hide Fits;
    var more, cells := pieces + [p], seen + [cell];
    forall i | 0 <= i < |more| ensures Fits(more[i], cells[i], StyleBefore(cells, i, from)) {
      if i < |pieces| { assert Fits(pieces[i], seen[i], StyleBefore(seen, i, from)); }
    }
  }

  lemma KeptOfSeen(pieces: seq<Piece>, seen: seq<Seen>, from: Style, n: nat)
    requires Produces(pieces, seen, from) && n <= |pieces|
    ensures Produces(pieces[..n], seen[..n], from)
  {
    hide Fits;
    forall i | 0 <= i < n ensures Fits(pieces[..n][i], seen[..n][i], StyleBefore(seen[..n], i, from)) {
      assert Fits(pieces[i], seen[i], StyleBefore(seen, i, from));
    }
  }

  ghost predicate Printable(seen: seq<Seen>) {
    forall i :: 0 <= i < |seen| ==> ESC !in seen[i].text && seen[i].text != "" && '\n' !in seen[i].text
  }

  lemma {:induction false} EmitShows(pieces: seq<Piece>, seen: seq<Seen>, from: Style, rest: string)
    requires Produces(pieces, seen, from) && Printable(seen)
    ensures var last := if seen == [] then from else LastStyle(seen);
            Show(Emit(pieces) + rest, from) == Before(Drawn(seen), Show(rest, last))
    decreases |pieces|
  {
    hide Show, SetStyle, Glyphs;
    if pieces == [] {
      assert Emit(pieces) + rest == rest && Show(rest, from).glyphs == [] + Show(rest, from).glyphs;
    } else {
      var p, style := pieces[0], seen[0].style;
      var tail := Emit(pieces[1..]) + rest;
      assert Fits(p, seen[0], from);
      TailProduces(pieces, seen, from);
      EmitShows(pieces[1..], seen[1..], style, rest);
      assert LastStyle(seen) == if seen[1..] == [] then style else LastStyle(seen[1..]);
      if p.sgr.Some? {
        ShowStyle(style, p.text + tail, from);
        Associate(p.sgr.value, p.text, tail);
        assert PieceText(p) + tail == p.sgr.value + (p.text + tail);
      } else {
        assert PieceText(p) == p.text;
      }
      ShowText(p.text, tail, style);
      Associate(PieceText(p), Emit(pieces[1..]), rest);
      BeforeTwice(Glyphs(p.text, style), Drawn(seen[1..]), Show(rest, LastStyle(seen)));
    }
  }

  lemma TailProduces(pieces: seq<Piece>, seen: seq<Seen>, from: Style)
    requires Produces(pieces, seen, from) && pieces != [] && Printable(seen)
    ensures Produces(pieces[1..], seen[1..], seen[0].style) && Printable(seen[1..])
  {
    hide Fits;
    forall i | 0 <= i < |pieces| - 1
      ensures Fits(pieces[1..][i], seen[1..][i], StyleBefore(seen[1..], i, seen[0].style))
    {
      assert Fits(pieces[i + 1], seen[i + 1], StyleBefore(seen, i + 1, from));
    }
  }

  lemma BeforeTwice(a: seq<Glyph>, b: seq<Glyph>, s: Screenful)
    ensures Before(a, Before(b, s)) == Before(a + b, s)
  {
    assert a + (b + s.glyphs) == a + b + s.glyphs;
  }

  /** How many of the seen cells matter: all, or up to the last that is not blank. */
  function Meaningful(seen: seq<Seen>, keepTrailing: bool): (n: nat)
    ensures n <= |seen| && (keepTrailing ==> n == |seen|)
    ensures !keepTrailing && n > 0 ==> Trim(seen[n - 1].text) != ""
    ensures forall i :: n <= i < |seen| ==> Trim(seen[i].text) == ""
  {
    if keepTrailing || seen == [] || Trim(seen[|seen| - 1].text) != "" then |seen|
    else Meaningful(seen[..|seen| - 1], keepTrailing)
  }

  /** The cells of a row that a capture should show. */
  function KeptCells(row: Row, cols: nat, keepTrailing: bool): seq<Seen> {
    SeenTo(row, cols)[..Meaningful(SeenTo(row, cols), keepTrailing)]
  }

  /** The cells of a row that a capture writes. */
  function WrittenCells(row: Row, cols: nat, keepTrailing: bool): seq<Seen> {
    WrittenTo(row, cols)[..Meaningful(WrittenTo(row, cols), keepTrailing)]
  }

  lemma {:induction false} KeptIsMeaningful(pieces: seq<Piece>, seen: seq<Seen>, keepTrailing: bool)
    requires |pieces| == |seen| && forall i :: 0 <= i < |pieces| ==> pieces[i].text == seen[i].text
    ensures Kept(pieces, keepTrailing) == Meaningful(seen, keepTrailing)
  {
    hide Trim;
    if pieces != [] { KeptIsMeaningful(pieces[..|pieces| - 1], seen[..|seen| - 1], keepTrailing); }
  }

  lemma KeptOfRow(row: Row, cols: nat, t: Tracker, keepTrailing: bool)
    requires t.fg.None?
    ensures Kept(VisitTo(row, cols, t).pieces, keepTrailing) == Meaningful(WrittenTo(row, cols), keepTrailing)
  {
    hide VisitTo, WrittenTo, Kept, Meaningful;
    VisitProduces(row, cols, t);
    var pieces, seen := VisitTo(row, cols, t).pieces, WrittenTo(row, cols);
    forall i | 0 <= i < |pieces| ensures pieces[i].text == seen[i].text {
      assert Fits(pieces[i], seen[i], StyleBefore(seen, i, PLAIN));
    }
    KeptIsMeaningful(pieces, seen, keepTrailing);
  }

  ghost predicate PrintableRow(row: Row) {
    forall c :: 0 <= c < |row| ==> ESC !in row[c].contents && '\n' !in row[c].contents
  }

  lemma {:induction false} WrittenPrintable(row: Row, n: nat)
    requires PrintableRow(row)
    ensures Printable(WrittenTo(row, n))
  {
    if n > 0 { WrittenPrintable(row, n - 1); }
  }

  /** A captured row shows what was written of it, each cell in its own style, and
      leaves the terminal in the default style at the end of the row, with the tracker
      ready for the next one. */
  lemma RowWrites(row: Row, cols: nat, t: Tracker, keepTrailing: bool, rest: string)
    requires t.fg.None? && PrintableRow(row)
    ensures NextTracker(row, cols, t).fg.None?
    ensures Show(StyledLine(row, cols, t, keepTrailing) + "\n" + rest, PLAIN)
         == Before(Drawn(WrittenCells(row, cols, keepTrailing)) + [Glyph('\n', PLAIN)], Show(rest, PLAIN))
  {
    hide Show, Emit, Drawn, PrintableRow, Printable, Produces;
    VisitProduces(row, cols, t);
    var v, seen := VisitTo(row, cols, t), WrittenTo(row, cols);
    var n := Kept(v.pieces, keepTrailing);
    KeptOfRow(row, cols, t, keepTrailing);
    LengthsAgree(v.pieces, seen, PLAIN);
    WrittenPrintable(row, cols);
    PrintablePrefix(seen, n);
    KeptOfSeen(v.pieces, seen, PLAIN, n);
    var kept := seen[..n];
    var tail := (if v.active then RESET else "") + ("\n" + rest);
    EmitShows(v.pieces[..n], kept, PLAIN, tail);
    ShowNewline(rest);
    if v.active {
      ShowReset("\n" + rest, LastStyle(kept));
    } else {
      assert LastStyle(kept) == PLAIN;
      assert tail == "\n" + rest;
    }
    LineGlue(Emit(v.pieces[..n]), if v.active then RESET else "", rest);
    BeforeTwice(Drawn(kept), [Glyph('\n', PLAIN)], Show(rest, PLAIN));
  }

  lemma PrintablePrefix(seen: seq<Seen>, n: nat)
    requires Printable(seen) && n <= |seen|
    ensures Printable(seen[..n])
  {}

  lemma LineGlue(a: string, b: string, rest: string)
    ensures a + b + "\n" + rest == a + (b + ("\n" + rest))
  {}

  lemma ShowNewline(rest: string)
    ensures Show("\n" + rest, PLAIN) == Before([Glyph('\n', PLAIN)], Show(rest, PLAIN))
  {
    ShowText("\n", rest, PLAIN);
    assert "\n"[1..] == "";
    assert Glyphs("\n", PLAIN) == [Glyph('\n', PLAIN)] + Glyphs("", PLAIN);
  }

  // ----- what is written against what is on the screen -----

  /** A row is captured right unless its blanks are kept, it is narrower than the pane
      and its last cell is not in the default style. */
  predicate ShownRight(row: Row, cols: nat, keepTrailing: bool) {
    !keepTrailing || cols <= |row| || LastStyle(SeenTo(row, |row|)) == PLAIN
  }

  function Blanks(n: nat, style: Style): (r: seq<Seen>)
    ensures |r| == n && forall i :: 0 <= i < n ==> r[i] == Seen(" ", style)
  {
    seq(n, _ => Seen(" ", style))
  }

  lemma {:induction false} StoredAgree(row: Row, n: nat)
    requires n <= |row|
    ensures WrittenTo(row, n) == SeenTo(row, n)
  {
    if n > 0 { StoredAgree(row, n - 1); }
  }

  lemma {:induction false} BeyondStored(row: Row, n: nat)
    requires |row| <= n
    ensures var stored := SeenTo(row, |row|);
            && SeenTo(row, n) == stored + Blanks(n - |row|, PLAIN)
            && WrittenTo(row, n) == stored + Blanks(n - |row|, LastStyle(stored))
  {
    var stored := SeenTo(row, |row|);
    StoredAgree(row, |row|);
    if n > |row| {
      BeyondStored(row, n - 1);
      var k := n - 1 - |row|;
      assert LastStyle(WrittenTo(row, n - 1)) == LastStyle(stored);
      assert Blanks(k + 1, PLAIN) == Blanks(k, PLAIN) + [Seen(" ", PLAIN)];
      assert Blanks(k + 1, LastStyle(stored)) == Blanks(k, LastStyle(stored)) + [Seen(" ", LastStyle(stored))];
    }
  }

  lemma BlankTrims()
    ensures Trim(" ") == ""
  {}

  /** The cells written and the cells that should show are the same, or differ in the
      style of the blanks past the row's own width. */
  lemma WrittenCellsAre(row: Row, cols: nat, keepTrailing: bool)
    ensures var written, kept := WrittenCells(row, cols, keepTrailing), KeptCells(row, cols, keepTrailing);
            var stored := SeenTo(row, |row|);
            if keepTrailing && |row| < cols
            then && written == stored + Blanks(cols - |row|, LastStyle(stored))
                 && kept == stored + Blanks(cols - |row|, PLAIN)
            else written == kept
  {
    hide Meaningful, SeenTo, WrittenTo, Blanks;
    if cols <= |row| {
      StoredAgree(row, cols);
    } else {
      var stored, n := SeenTo(row, |row|), cols - |row|;
      BeyondStored(row, cols);
      WithoutBlanks(stored, n, LastStyle(stored), keepTrailing);
      WithoutBlanks(stored, n, PLAIN, keepTrailing);
    }
  }

  lemma {:induction false} WithoutBlanks(stored: seq<Seen>, n: nat, style: Style, keepTrailing: bool)
    ensures var all := stored + Blanks(n, style);
            var kept := all[..Meaningful(all, keepTrailing)];
            if keepTrailing then kept == all else kept == stored[..Meaningful(stored, false)]
  {
    hide Trim, Blanks;
    var all := stored + Blanks(n, style);
    if !keepTrailing {
      if n == 0 {
        assert all == stored;
      } else {
        BlankTrims();
        assert all[..|all| - 1] == stored + Blanks(n - 1, style) && all[|all| - 1] == Seen(" ", style);
        WithoutBlanks(stored, n - 1, style, false);
      }
    }
  }

  lemma {:induction false} DrawnAdd(a: seq<Seen>, b: seq<Seen>)
    ensures Drawn(a + b) == Drawn(a) + Drawn(b)
  {
    hide Glyphs;
    if a == [] {
      assert a + b == b;
    } else {
      assert (a + b)[1..] == a[1..] + b;
      DrawnAdd(a[1..], b);
      Associate(Glyphs(a[0].text, a[0].style), Drawn(a[1..]), Drawn(b));
    }
  }

  lemma {:induction false} DrawnBlanks(n: nat, style: Style)
    ensures |Drawn(Blanks(n, style))| == n
    ensures forall i :: 0 <= i < n ==> Drawn(Blanks(n, style))[i] == Glyph(' ', style)
  {
    if n > 0 {
      assert Blanks(n, style)[1..] == Blanks(n - 1, style);
      assert " "[1..] == "" && Glyphs(" ", style) == [Glyph(' ', style)] + Glyphs("", style);
      DrawnBlanks(n - 1, style);
    }
  }

  lemma DrawnRightExactlyWhen(row: Row, cols: nat, keepTrailing: bool)
    ensures var written := Drawn(WrittenCells(row, cols, keepTrailing));
            var kept := Drawn(KeptCells(row, cols, keepTrailing));
            |written| == |kept| && (written == kept <==> ShownRight(row, cols, keepTrailing))
  {
    hide WrittenCells, KeptCells, SeenTo, Drawn, Blanks;
    WrittenCellsAre(row, cols, keepTrailing);
    if keepTrailing && |row| < cols {
      var stored, n := SeenTo(row, |row|), cols - |row|;
      var last := LastStyle(stored);
      DrawnAdd(stored, Blanks(n, last));
      DrawnAdd(stored, Blanks(n, PLAIN));
      DrawnBlanks(n, last);
      DrawnBlanks(n, PLAIN);
      SameHeads(Drawn(stored), Drawn(stored), Drawn(Blanks(n, last)), Drawn(Blanks(n, PLAIN)));
      assert Drawn(Blanks(n, last))[0] == Glyph(' ', last) && Drawn(Blanks(n, PLAIN))[0] == Glyph(' ', PLAIN);
    }
  }

  /** A captured row shows every kept cell in its text, colours and attributes exactly
      when it is not a narrow row whose blanks are kept and whose last cell is in some
      style. */
  lemma RowShows(row: Row, cols: nat, t: Tracker, keepTrailing: bool, rest: string)
    requires t.fg.None? && PrintableRow(row)
    ensures Show(StyledLine(row, cols, t, keepTrailing) + "\n" + rest, PLAIN)
              == Before(Drawn(KeptCells(row, cols, keepTrailing)) + [Glyph('\n', PLAIN)], Show(rest, PLAIN))
            <==> ShownRight(row, cols, keepTrailing)
  {
    hide Show, StyledLine, Drawn, WrittenCells, KeptCells, PrintableRow, ShownRight;
    RowWrites(row, cols, t, keepTrailing, rest);
    DrawnRightExactlyWhen(row, cols, keepTrailing);
    var written, kept := Drawn(WrittenCells(row, cols, keepTrailing)), Drawn(KeptCells(row, cols, keepTrailing));
    var newline, after := [Glyph('\n', PLAIN)], Show(rest, PLAIN).glyphs;
    SameHeads(written, kept, newline, newline);
    SameHeads(written + newline, kept + newline, after, after);
  }

  /** A history row of one cell on a coloured ground, in a pane that has been widened to
      two columns: with trailing blanks kept, the second column comes out coloured. */
  lemma NarrowRowRunsOn()
    ensures var style := PLAIN.(bg := Idx(1));
            var row := [Cell("x", false, style, 0)];
            var line := StyledLine(row, 2, UNTOUCHED, true) + "\n";
            && KeptCells(row, 2, true) == [Seen("x", style), Seen(" ", PLAIN)]
            && Show(line, PLAIN)
               == Before(Drawn([Seen("x", style), Seen(" ", style)]) + [Glyph('\n', PLAIN)], Show("", PLAIN))
            && Show(line, PLAIN) != Before(Drawn(KeptCells(row, 2, true)) + [Glyph('\n', PLAIN)], Show("", PLAIN))
  {
    var style := PLAIN.(bg := Idx(1));
    var row := [Cell("x", false, style, 0)];
    var line := StyledLine(row, 2, UNTOUCHED, true) + "\n";
    assert SeenTo(row, 0) == [] && SeenTo(row, 1) == [Seen("x", style)];
    hide StyledLine, Show, Drawn, SeenTo, WrittenTo, WrittenCells, KeptCells;
    WrittenCellsAre(row, 2, true);
    assert WrittenCells(row, 2, true) == [Seen("x", style), Seen(" ", style)];
    RowWrites(row, 2, UNTOUCHED, true, "");
    RowShows(row, 2, UNTOUCHED, true, "");
    assert line + "" == line;
  }

  /** What a reader should see of several rows. */
  function DrawnRows(rows: seq<Row>, cols: nat, keepTrailing: bool): seq<Glyph> {
    if rows == [] then []
    else
      Drawn(KeptCells(rows[0], cols, keepTrailing)) + [Glyph('\n', PLAIN)]
      + DrawnRows(rows[1..], cols, keepTrailing)
  }

  function WrittenRows(rows: seq<Row>, cols: nat, keepTrailing: bool): seq<Glyph> {
    if rows == [] then []
    else
      Drawn(WrittenCells(rows[0], cols, keepTrailing)) + [Glyph('\n', PLAIN)]
      + WrittenRows(rows[1..], cols, keepTrailing)
  }

  lemma {:induction false} RowsRightExactlyWhen(rows: seq<Row>, cols: nat, keepTrailing: bool)
    ensures var written, drawn := WrittenRows(rows, cols, keepTrailing), DrawnRows(rows, cols, keepTrailing);
            |written| == |drawn| && (written == drawn <==> forall row <- rows :: ShownRight(row, cols, keepTrailing))
  {
    hide Drawn, WrittenCells, KeptCells, ShownRight;
    if rows != [] {
      DrawnRightExactlyWhen(rows[0], cols, keepTrailing);
      RowsRightExactlyWhen(rows[1..], cols, keepTrailing);
      var written := Drawn(WrittenCells(rows[0], cols, keepTrailing));
      var kept := Drawn(KeptCells(rows[0], cols, keepTrailing));
      var newline := [Glyph('\n', PLAIN)];
      SameHeads(written, kept, newline, newline);
      SameHeads(written + newline, kept + newline,
                WrittenRows(rows[1..], cols, keepTrailing), DrawnRows(rows[1..], cols, keepTrailing));
      assert forall row :: row in rows <==> row == rows[0] || row in rows[1..];
    }
  }

  lemma NextTrackerUnknown(row: Row, cols: nat, t: Tracker)
    requires t.fg.None?
    ensures NextTracker(row, cols, t).fg.None?
  {
    VisitProduces(row, cols, t);
  }

  lemma {:induction false} CaptureWrites(rows: seq<Row>, cols: nat, t: Tracker, keepTrailing: bool)
    requires t.fg.None? && forall row <- rows :: PrintableRow(row)
    ensures Show(StyledRows(rows, cols, t, keepTrailing), PLAIN)
         == Screenful(WrittenRows(rows, cols, keepTrailing), PLAIN)
  {
    hide StyledLine, NextTracker, WrittenCells, Drawn, PrintableRow;
    if rows == [] {
    } else {
      hide Show;
      assert rows[0] in rows && forall row :: row in rows[1..] ==> row in rows;
      var next := NextTracker(rows[0], cols, t);
      var more := StyledRows(rows[1..], cols, next, keepTrailing);
      RowWrites(rows[0], cols, t, keepTrailing, more);
      CaptureWrites(rows[1..], cols, next, keepTrailing);
    }
  }

  /** Replaying a capture ends in the default style, and shows every kept cell of every
      row with its text and style exactly when every row is shown right. */
  lemma CaptureShows(rows: seq<Row>, cols: nat, t: Tracker, keepTrailing: bool)
    requires t.fg.None? && forall row <- rows :: PrintableRow(row)
    ensures var shown := Show(StyledRows(rows, cols, t, keepTrailing), PLAIN);
            && shown.style == PLAIN
            && (shown.glyphs == DrawnRows(rows, cols, keepTrailing)
                <==> forall row <- rows :: ShownRight(row, cols, keepTrailing))
  {
    hide StyledRows, Show, DrawnRows, WrittenRows, PrintableRow, ShownRight;
    CaptureWrites(rows, cols, t, keepTrailing);
    RowsRightExactlyWhen(rows, cols, keepTrailing);
  }

  // ----- the trim at the end -----

  /** A row is blank to the capture when no cell of it is kept. */
  predicate BlankRow(row: Row, cols: nat, keepTrailing: bool) {
    KeptCells(row, cols, keepTrailing) == []
  }

  /** How many rows stay when trailing blank ones are dropped. */
  function RowsLeft(rows: seq<Row>, cols: nat, keepTrailing: bool): (n: nat)
    ensures n <= |rows|
  {
    if rows == [] then 0
    else
      var last := |rows| - 1;
      if BlankRow(rows[last], cols, keepTrailing) then RowsLeft(rows[..last], cols, keepTrailing) else |rows|
  }

  lemma {:induction false} LastLineSkips(before: string, line: string)
    requires before == "" || before[|before| - 1] == '\n'
    requires '\n' !in line
    ensures LastLine(before + line) == |before|
    decreases |line|
  {
    if line == "" {
      assert before + line == before;
    } else {
      var s := before + line;
      assert s[|s| - 1] == line[|line| - 1] && s[..|s| - 1] == before + line[..|line| - 1];
      LastLineSkips(before, line[..|line| - 1]);
    }
  }

  /** The trim looks at one line at a time. */
  lemma TrimStep(before: string, line: string)
    requires before == "" || before[|before| - 1] == '\n'
    requires '\n' !in line
    ensures TrimTrailing(before + (line + "\n")) ==
              if StripResets(line) == "" then TrimTrailing(before) else before + (line + "\n")
  {
    hide StripResets, LastLine, TrimTrailing;
    var text := before + (line + "\n");
    assert text[..|text| - 1] == before + line;
    LastLineSkips(before, line);
    assert text[|before|..|text| - 1] == line && text[..|before|] == before;
    TrimUnfolds(text);
  }

  lemma TrimUnfolds(text: string)
    requires text != "" && text[|text| - 1] == '\n'
    ensures var start := LastLine(text[..|text| - 1]);
            TrimTrailing(text) ==
              if StripResets(text[start..|text| - 1]) != "" then text else TrimTrailing(text[..start])
  {
    hide StripResets, LastLine;
  }

  lemma SetStyleStart(s: Style)
    ensures |SetStyle(s)| >= 4 && SetStyle(s)[0] == ESC && '\n' !in SetStyle(s)
    ensures StyleParams(s) == [[0]] ==> SetStyle(s) == RESET
    ensures StyleParams(s) != [[0]] ==> SetStyle(s)[3] == ';'
  {
    hide FontParams;
    var ps := StyleParams(s);
    ParamsHave(ps, '\n');
    assert Decimal(0) == "0" && FormatSubs([0]) == "0";
    assert ps[0] == [0];
    if |ps| == 1 {
      assert ps == [[0]];
    } else {
      assert FormatParams(ps) == "0" + (";" + FormatParams(ps[1..]));
      assert SetStyle(s)[3] == FormatParams(ps)[1];
    }
  }

  /** A line with a kept cell has something left after its leading resets. */
  lemma KeptLineStays(p: Piece, seen: Seen, rest: string)
    requires p.text == seen.text && seen.text != "" && ESC !in seen.text
    requires p.sgr.Some? ==> p.sgr.value == SetStyle(seen.style)
    ensures StripResets(PieceText(p) + rest) != ""
  {
    hide SetStyle, StyleParams;
    var tail := p.text + rest;
    assert tail[0] == p.text[0] && tail[0] in seen.text;
    assert RESET[0] == ESC;
    TextStays(tail);
    if p.sgr.Some? {
      SetStyleStart(seen.style);
      var s := PieceText(p) + rest;
      assert s == SetStyle(seen.style) + tail;
      if StyleParams(seen.style) == [[0]] {
        assert s[|RESET|..] == tail && RESET <= s;
      } else {
        assert s[3] == ';' && RESET[3] == 'm';
      }
    } else {
      assert PieceText(p) + rest == tail;
    }
  }

  lemma TextStays(s: string)
    requires s != "" && s[0] != ESC
    ensures StripResets(s) == s
  {
    assert RESET[0] == ESC;
  }

  lemma {:induction false} EmitOneLine(pieces: seq<Piece>, seen: seq<Seen>, from: Style)
    requires Produces(pieces, seen, from) && Printable(seen)
    ensures '\n' !in Emit(pieces)
  {
    hide SetStyle;
    if pieces != [] {
      assert Fits(pieces[0], seen[0], StyleBefore(seen, 0, from));
      TailProduces(pieces, seen, from);
      EmitOneLine(pieces[1..], seen[1..], seen[0].style);
      SetStyleStart(seen[0].style);
    }
  }

  lemma BlankLineStrips(row: Row, cols: nat, t: Tracker, keepTrailing: bool)
    requires t.fg.None? && PrintableRow(row)
    ensures '\n' !in StyledLine(row, cols, t, keepTrailing)
    ensures StripResets(StyledLine(row, cols, t, keepTrailing)) == "" <==> BlankRow(row, cols, keepTrailing)
  {
    hide PrintableRow, Emit, WrittenTo, VisitTo, Printable, StripResets, Produces;
    VisitProduces(row, cols, t);
    WrittenPrintable(row, cols);
    var v, seen := VisitTo(row, cols, t), WrittenTo(row, cols);
    LengthsAgree(v.pieces, seen, PLAIN);
    var n := Kept(v.pieces, keepTrailing);
    KeptOfRow(row, cols, t, keepTrailing);
    KeptOfSeen(v.pieces, seen, PLAIN, n);
    WrittenBlank(row, cols, keepTrailing);
    PrintablePrefix(seen, n);
    EmitOneLine(v.pieces[..n], seen[..n], PLAIN);
    var end := if v.active then RESET else "";
    if n == 0 {
      NothingEmitted();
      assert v.pieces[..0] == [] && "" + end == end;
      ResetsStrip();
    } else {
      var kept := v.pieces[..n];
      EmitSplits(kept, 0);
      assert kept[0..] == kept;
      FirstPiece(kept, seen[..n]);
      KeptLineStays(kept[0], seen[0], Emit(kept[1..]) + end);
      Associate(PieceText(kept[0]), Emit(kept[1..]), end);
    }
  }

  lemma WrittenBlank(row: Row, cols: nat, keepTrailing: bool)
    ensures BlankRow(row, cols, keepTrailing) <==> Meaningful(WrittenTo(row, cols), keepTrailing) == 0
  {
    hide SeenTo, WrittenTo, Meaningful;
    WrittenCellsAre(row, cols, keepTrailing);
  }

  lemma FirstPiece(pieces: seq<Piece>, seen: seq<Seen>)
    requires Produces(pieces, seen, PLAIN) && Printable(seen) && pieces != []
    ensures pieces[0].text == seen[0].text && seen[0].text != "" && ESC !in seen[0].text
    ensures pieces[0].sgr.Some? ==> pieces[0].sgr.value == SetStyle(seen[0].style)
  {
    hide SetStyle;
    assert Fits(pieces[0], seen[0], StyleBefore(seen, 0, PLAIN));
  }

  lemma ResetsStrip()
    ensures StripResets("") == "" && StripResets(RESET) == ""
  {
    assert RESET[|RESET|..] == "";
  }

  lemma {:induction false} TrackerUnknown(rows: seq<Row>, cols: nat, t: Tracker)
    requires t.fg.None?
    ensures TrackerAfter(rows, cols, t).fg.None?
  {
    if rows != [] {
      NextTrackerUnknown(rows[0], cols, t);
      TrackerUnknown(rows[1..], cols, NextTracker(rows[0], cols, t));
    }
  }

  lemma {:induction false} StyledRowsEnd(rows: seq<Row>, cols: nat, t: Tracker, keepTrailing: bool)
    ensures var s := StyledRows(rows, cols, t, keepTrailing); s == "" || s[|s| - 1] == '\n'
  {
    hide StyledLine, NextTracker;
    if rows != [] { StyledRowsEnd(rows[1..], cols, NextTracker(rows[0], cols, t), keepTrailing); }
  }

  /** Trimming drops exactly the trailing rows of which nothing is kept. */
  lemma {:induction false} TrimDropsBlankRows(rows: seq<Row>, cols: nat, t: Tracker, keepTrailing: bool)
    requires t.fg.None? && forall row <- rows :: PrintableRow(row)
    ensures TrimTrailing(StyledRows(rows, cols, t, keepTrailing))
         == StyledRows(rows[..RowsLeft(rows, cols, keepTrailing)], cols, t, keepTrailing)
    decreases |rows|
  {
    hide StyledLine, BlankRow, PrintableRow, StyledRows, TrimTrailing, NextTracker;
    if rows == [] {
      NothingToTrim(cols, t, keepTrailing);
      assert rows[..0] == [];
    } else {
      var last := |rows| - 1;
      assert rows[last] in rows && forall row :: row in rows[..last] ==> row in rows;
      assert rows[..last + 1] == rows;
      OneMoreRow(rows, last, cols, t, keepTrailing);
      TrackerUnknown(rows[..last], cols, t);
      var before := TrackerAfter(rows[..last], cols, t);
      BlankLineStrips(rows[last], cols, before, keepTrailing);
      StyledRowsEnd(rows[..last], cols, t, keepTrailing);
      TrimStep(StyledRows(rows[..last], cols, t, keepTrailing), StyledLine(rows[last], cols, before, keepTrailing));
      if BlankRow(rows[last], cols, keepTrailing) {
        TrimDropsBlankRows(rows[..last], cols, t, keepTrailing);
        var n := RowsLeft(rows[..last], cols, keepTrailing);
        assert rows[..last][..n] == rows[..n];
      }
    }
  }

  lemma NothingToTrim(cols: nat, t: Tracker, keepTrailing: bool)
    ensures StyledRows([], cols, t, keepTrailing) == "" && TrimTrailing("") == ""
  {}

  /** The whole styled capture: it ends in the default style, and what it shows is the
      kept cells of the captured rows, less the blank ones at the end, exactly when each
      of these rows is shown right; without trailing blanks they all are. */
  lemma StyledCaptureShows(rows: seq<Row>, cols: nat, keepTrailing: bool)
    requires forall row <- rows :: PrintableRow(row)
    ensures var left := rows[..RowsLeft(rows, cols, keepTrailing)];
            var shown := Show(TrimTrailing(StyledRows(rows, cols, UNTOUCHED, keepTrailing)), PLAIN);
            && shown.style == PLAIN
            && (shown.glyphs == DrawnRows(left, cols, keepTrailing)
                <==> forall row <- left :: ShownRight(row, cols, keepTrailing))
            && (!keepTrailing ==> shown.glyphs == DrawnRows(left, cols, keepTrailing))
  {
    hide PrintableRow, StyledRows, TrimTrailing, DrawnRows, Show;
    TrimDropsBlankRows(rows, cols, UNTOUCHED, keepTrailing);
    var left := rows[..RowsLeft(rows, cols, keepTrailing)];
    assert forall row :: row in left ==> row in rows;
    CaptureShows(left, cols, UNTOUCHED, keepTrailing);
  }
}
