/** Run-length encoding of screen rows (`layout.rs`): the simple serialiser and
    the fast snapshot. */
module RunRows {
  import opened Text
  import opened Terminal
  import opened Sgr

  /** Everything about a cell that ends a run when it changes. */
  datatype Attr = Attr(fg: Color, bg: Color, flags: nat, link: nat, ul: nat, ulcolor: Color)

  const BLANK := Attr(Default, Default, 0, 0, 0, Default)

  function Bit(b: bool, value: nat): nat { if b then value else 0 }

  function Byte(a: bool, b: bool, c: bool, d: bool, e: bool, f: bool, g: bool, h: bool): nat {
    Bit(a, 1) + Bit(b, 2) + Bit(c, 4) + Bit(d, 8) + Bit(e, 16) + Bit(f, 32) + Bit(g, 64) + Bit(h, 128)
  }

  /** The flag byte: dim, bold, italic, underline, inverse, blink, hidden, strike. */
  function FlagsOf(s: Style): nat {
    Byte(s.intensity.Dim?, s.intensity.Bold?, s.italic, s.ul != NoUnderline, s.inverse, s.blink, s.hidden, s.strike)
  }

  function AttrOf(cell: Cell, palette: Color -> Color): Attr {
    Attr(palette(cell.style.fg), palette(cell.style.bg), FlagsOf(cell.style), cell.link,
         UnderlineCode(cell.style.ul), palette(cell.style.ulcolor))
  }

  lemma ByteTells(a: bool, b: bool, c: bool, d: bool, e: bool, f: bool, g: bool, h: bool,
                  a': bool, b': bool, c': bool, d': bool, e': bool, f': bool, g': bool, h': bool)
    requires Byte(a, b, c, d, e, f, g, h) == Byte(a', b', c', d', e', f', g', h')
    ensures a == a' && b == b' && c == c' && d == d' && e == e' && f == f' && g == g' && h == h'
  {
    assert h == h' && g == g' && f == f' && e == e';
  }

  /** The flag byte and the underline code tell every mode of a style. */
  lemma FlagsTell(s: Style, t: Style)
    requires FlagsOf(s) == FlagsOf(t) && UnderlineCode(s.ul) == UnderlineCode(t.ul)
    ensures s.intensity == t.intensity && s.italic == t.italic && s.ul == t.ul
    ensures s.inverse == t.inverse && s.blink == t.blink && s.hidden == t.hidden && s.strike == t.strike
  {
    hide Byte;
    ByteTells(s.intensity.Dim?, s.intensity.Bold?, s.italic, s.ul != NoUnderline,
              s.inverse, s.blink, s.hidden, s.strike,
              t.intensity.Dim?, t.intensity.Bold?, t.italic, t.ul != NoUnderline,
              t.inverse, t.blink, t.hidden, t.strike);
  }

  /** A column as the serialisers visit it. */
  datatype Column = Column(text: string, width: nat, attr: Attr, missing: bool)

  datatype Run = Run(text: string, width: nat, attr: Attr)

  /** The display width of a text, at least one column. */
  function WidthOf(width: string -> nat, text: string): (w: nat)
    ensures w >= 1
  {
    Max(width(text), 1)
  }

  function ColumnAt(row: Row, c: nat, palette: Color -> Color, width: string -> nat): (col: Column)
    ensures col.width >= 1 && (col.missing <==> c >= |row|) && (col.missing ==> col.attr == BLANK)
  {
    if c < |row| then
      Column(CellText(row[c]), WidthOf(width, CellText(row[c])), AttrOf(row[c], palette), false)
    else Column(" ", 1, BLANK, true)
  }

  /** The columns visited from `c` on: a wide glyph is stepped over whole. */
  function Columns(row: Row, cols: nat, c: nat, palette: Color -> Color, width: string -> nat): seq<Column>
    decreases cols - c
  {
    if c >= cols then []
    else
      var col := ColumnAt(row, c, palette, width);
      [col] + Columns(row, cols, c + col.width, palette, width)
  }

  // ----- the two encoders -----

  function Push(runs: seq<Run>, col: Column): seq<Run> { runs + [Run(col.text, col.width, col.attr)] }

  function Extend(runs: seq<Run>, col: Column): seq<Run>
    requires runs != []
  {
    var last := runs[|runs| - 1];
    runs[|runs| - 1 := last.(text := last.text + col.text, width := last.width + col.width)]
  }

  datatype State = State(runs: seq<Run>, prev: Option<Attr>)

  /** The fast snapshot compares everything with the previous column. */
  function FastStep(s: State, col: Column): State {
    State(if s.prev == Some(col.attr) && s.runs != [] then Extend(s.runs, col)
          else if s.prev == Some(col.attr) then s.runs else Push(s.runs, col),
          Some(col.attr))
  }

  predicate SameColours(a: Attr, b: Attr) { a.fg == b.fg && a.bg == b.bg && a.flags == b.flags && a.link == b.link }

  /** The simple serialiser compares colours, flags and link with the previous
      column and the underline with the last run; for a missing cell it does not
      look at the underline. */
  predicate SimpleMerges(s: State, col: Column) {
    && s.runs != [] && s.prev.Some? && SameColours(s.prev.value, col.attr)
    && (col.missing ||
        var last := s.runs[|s.runs| - 1].attr; last.ul == col.attr.ul && last.ulcolor == col.attr.ulcolor)
  }

  function SimpleStep(s: State, col: Column): State {
    State(if SimpleMerges(s, col) then Extend(s.runs, col) else Push(s.runs, col), Some(col.attr))
  }

  function Fast(cols: seq<Column>): State {
    if cols == [] then State([], None) else FastStep(Fast(cols[..|cols| - 1]), cols[|cols| - 1])
  }

  function Simple(cols: seq<Column>): State {
    if cols == [] then State([], None) else SimpleStep(Simple(cols[..|cols| - 1]), cols[|cols| - 1])
  }

  /** One row of `serialize_screen_rows`. */
  method SerializeRow(row: Row, cols: nat, palette: Color -> Color, width: string -> nat) returns (runs: seq<Run>)
    ensures runs == Simple(Columns(row, cols, 0, palette, width)).runs
  {
    hide ColumnAt;
    ghost var all := Columns(row, cols, 0, palette, width);
    ghost var seen: seq<Column> := [];
    runs := [];
    var prev: Option<Attr> := None;
    var c: nat := 0;
    assert [] + all == all;
    while c < cols
      invariant seen + Columns(row, cols, c, palette, width) == all
      invariant State(runs, prev) == Simple(seen)
      decreases cols - c
    {
      var col := ColumnAt(row, c, palette, width);
      StepOn(seen, col, Columns(row, cols, c + col.width, palette, width));
      seen := seen + [col];
      if SimpleMerges(State(runs, prev), col) {
        var last := runs[|runs| - 1];
        runs := runs[|runs| - 1 := last.(text := last.text + col.text, width := last.width + col.width)];
      } else {
        runs := runs + [Run(col.text, col.width, col.attr)];
      }
      prev := Some(col.attr);
      c := c + col.width;
    }
    assert seen + [] == seen;
  }

  /** One row of the snapshot in `dump_layout_json_fast`. */
  method SnapshotRow(row: Row, cols: nat, palette: Color -> Color, width: string -> nat) returns (runs: seq<Run>)
    ensures runs == Fast(Columns(row, cols, 0, palette, width)).runs
  {
    hide ColumnAt;
    ghost var all := Columns(row, cols, 0, palette, width);
    ghost var seen: seq<Column> := [];
    runs := [];
    var prev: Option<Attr> := None;
    var c: nat := 0;
    assert [] + all == all;
    while c < cols
      invariant seen + Columns(row, cols, c, palette, width) == all
      invariant State(runs, prev) == Fast(seen)
      decreases cols - c
    {
      var col := ColumnAt(row, c, palette, width);
      StepOn(seen, col, Columns(row, cols, c + col.width, palette, width));
      seen := seen + [col];
      if prev == Some(col.attr) {
        if runs != [] {
          var last := runs[|runs| - 1];
          runs := runs[|runs| - 1 := last.(text := last.text + col.text, width := last.width + col.width)];
        }
      } else {
        runs := runs + [Run(col.text, col.width, col.attr)];
      }
      prev := Some(col.attr);
      c := c + col.width;
    }
    assert seen + [] == seen;
  }

  lemma StepOn(seen: seq<Column>, col: Column, rest: seq<Column>)
    ensures (seen + [col]) + rest == seen + ([col] + rest)
    ensures (seen + [col])[..|seen + [col]| - 1] == seen
  {}

  // ----- runs lose nothing -----

  /** A character with the attributes it is drawn in. */
  datatype Mark = Mark(c: char, attr: Attr)

  function Marks(text: string, attr: Attr): seq<Mark> {
    if text == "" then [] else Marks(text[..|text| - 1], attr) + [Mark(text[|text| - 1], attr)]
  }

  lemma {:induction false} MarksAdd(a: string, b: string, attr: Attr)
    ensures Marks(a + b, attr) == Marks(a, attr) + Marks(b, attr)
  {
    if b == "" {
      assert a + b == a;
    } else {
      assert (a + b)[..|a + b| - 1] == a + b[..|b| - 1];
      MarksAdd(a, b[..|b| - 1], attr);
    }
  }

  function ColumnMarks(cols: seq<Column>): seq<Mark> {
    if cols == [] then []
    else ColumnMarks(cols[..|cols| - 1]) + Marks(cols[|cols| - 1].text, cols[|cols| - 1].attr)
  }

  function RunMarks(runs: seq<Run>): seq<Mark> {
    if runs == [] then []
    else RunMarks(runs[..|runs| - 1]) + Marks(runs[|runs| - 1].text, runs[|runs| - 1].attr)
  }

  function ColumnWidth(cols: seq<Column>): nat {
    if cols == [] then 0 else ColumnWidth(cols[..|cols| - 1]) + cols[|cols| - 1].width
  }

  function RunWidth(runs: seq<Run>): nat {
    if runs == [] then 0 else RunWidth(runs[..|runs| - 1]) + runs[|runs| - 1].width
  }

  ghost predicate Distinct(runs: seq<Run>) {
    forall i :: 0 < i < |runs| ==> runs[i].attr != runs[i - 1].attr
  }

  lemma RunsUnfold(runs: seq<Run>, r: Run)
    ensures RunMarks(runs + [r]) == RunMarks(runs) + Marks(r.text, r.attr)
    ensures RunWidth(runs + [r]) == RunWidth(runs) + r.width
  {
    hide Marks;
    assert (runs + [r])[..|runs|] == runs;
  }

  function Longer(r: Run, col: Column): Run { Run(r.text + col.text, r.width + col.width, r.attr) }

  lemma ExtendIs(runs: seq<Run>, col: Column)
    requires runs != []
    ensures var n := |runs| - 1;
            runs == runs[..n] + [runs[n]] && Extend(runs, col) == runs[..n] + [Longer(runs[n], col)]
  {}

  lemma LongerKeeps(r: Run, col: Column, before: seq<Mark>)
    requires r.attr == col.attr
    ensures before + Marks(Longer(r, col).text, r.attr) == (before + Marks(r.text, r.attr)) + Marks(col.text, col.attr)
  {
    hide Marks;
    MarksAdd(r.text, col.text, col.attr);
    Associate(before, Marks(r.text, r.attr), Marks(col.text, col.attr));
  }

  lemma ExtendKeeps(runs: seq<Run>, col: Column)
    requires runs != [] && runs[|runs| - 1].attr == col.attr
    ensures RunMarks(Extend(runs, col)) == RunMarks(runs) + Marks(col.text, col.attr)
    ensures RunWidth(Extend(runs, col)) == RunWidth(runs) + col.width
  {
    hide Marks, RunMarks, RunWidth, Extend;
    var before, last := runs[..|runs| - 1], runs[|runs| - 1];
    ExtendIs(runs, col);
    RunsUnfold(before, last);
    RunsUnfold(before, Longer(last, col));
    LongerKeeps(last, col, RunMarks(before));
  }

  lemma PushKeeps(runs: seq<Run>, col: Column)
    ensures RunMarks(Push(runs, col)) == RunMarks(runs) + Marks(col.text, col.attr)
    ensures RunWidth(Push(runs, col)) == RunWidth(runs) + col.width
  {
    hide Marks, RunMarks, RunWidth;
    RunsUnfold(runs, Run(col.text, col.width, col.attr));
  }

  /** Expanding the fast runs gives back every visited character with all its
      attributes and the total width; runs are maximal. */
  lemma {:induction false} FastLossless(cols: seq<Column>)
    ensures var s := Fast(cols);
            && RunMarks(s.runs) == ColumnMarks(cols) && RunWidth(s.runs) == ColumnWidth(cols)
            && Distinct(s.runs)
            && (cols == [] <==> s.runs == [])
            && (cols != [] ==>
                  var last := cols[|cols| - 1].attr; s.prev == Some(last) && s.runs[|s.runs| - 1].attr == last)
  {
    hide Marks, RunMarks, RunWidth;
    if cols == [] {
      NoRuns();
    } else {
      var before, col := Fast(cols[..|cols| - 1]), cols[|cols| - 1];
      FastLossless(cols[..|cols| - 1]);
      if before.prev == Some(col.attr) {
        ExtendKeeps(before.runs, col);
      } else {
        PushKeeps(before.runs, col);
      }
    }
  }

  lemma NoRuns()
    ensures RunMarks([]) == [] && RunWidth([]) == 0
  {}

  // ----- when the two agree -----

  /** A missing cell right after a column that differs from a blank only in its
      underline style or colour. */
  ghost predicate Trouble(cols: seq<Column>, i: nat)
    requires i < |cols|
  {
    0 < i && cols[i].missing && cols[i - 1].attr != BLANK && SameColours(cols[i - 1].attr, BLANK)
  }

  ghost predicate WellFormed(cols: seq<Column>) {
    forall i :: 0 <= i < |cols| ==> cols[i].text != "" && (cols[i].missing ==> cols[i].attr == BLANK)
  }

  ghost predicate NoTrouble(cols: seq<Column>) { forall i :: 0 <= i < |cols| ==> !Trouble(cols, i) }

  lemma StepsUnfold(cols: seq<Column>)
    requires cols != []
    ensures var n := |cols| - 1;
            && Simple(cols) == SimpleStep(Simple(cols[..n]), cols[n])
            && Fast(cols) == FastStep(Fast(cols[..n]), cols[n])
  {
    hide SimpleStep, FastStep;
  }

  lemma NoSteps()
    ensures Simple([]) == State([], None) && Fast([]) == State([], None)
  {}

  /** The last run carries the previous column's attributes, so comparing with
      either comes to the same unless the underline is not looked at. */
  lemma StepsAgree(s: State, col: Column)
    requires s.prev.None? <==> s.runs == []
    requires s.prev.Some? ==> s.runs[|s.runs| - 1].attr == s.prev.value
    requires col.missing ==> col.attr == BLANK
    requires col.missing && s.prev.Some? && SameColours(s.prev.value, BLANK) ==> s.prev.value == BLANK
    ensures SimpleStep(s, col) == FastStep(s, col)
  {}

  /** Without trouble the two encoders build the same runs. */
  lemma {:induction false} SimpleIsFast(cols: seq<Column>)
    requires WellFormed(cols) && NoTrouble(cols)
    ensures Simple(cols) == Fast(cols)
  {
    hide Simple, Fast, SimpleStep, FastStep;
    if cols == [] {
      NoSteps();
    } else {
      var n := |cols| - 1;
      var rest := cols[..n];
      StepsUnfold(cols);
      assert forall i :: 0 <= i < n ==> rest[i] == cols[i] && (Trouble(rest, i) <==> Trouble(cols, i));
      SimpleIsFast(rest);
      FastLossless(rest);
      NoSteps();
      assert !Trouble(cols, n);
      StepsAgree(Fast(rest), cols[n]);
    }
  }

  /** From some column on, run `k` is closed in the fast form and longer in the
      simple one. */
  ghost predicate Apart(simple: seq<Run>, fast: seq<Run>, k: nat) {
    k < |simple| && k + 1 < |fast| && |simple[k].text| > |fast[k].text|
  }

  lemma StepKeepsApart(s: State, f: State, col: Column, k: nat)
    requires Apart(s.runs, f.runs, k)
    ensures Apart(SimpleStep(s, col).runs, FastStep(f, col).runs, k)
  {}

  /** At the first troublesome column the simple form lengthens its last run and
      the fast form starts a new one. */
  lemma TroubleStarts(s: State, col: Column, prev: Attr)
    requires s.runs != [] && s.prev == Some(prev) && col.text != ""
    requires col.missing && col.attr == BLANK && prev != BLANK && SameColours(prev, BLANK)
    ensures Apart(SimpleStep(s, col).runs, FastStep(s, col).runs, |s.runs| - 1)
  {}

  lemma {:induction false} TroubleSeparates(cols: seq<Column>, i: nat) returns (k: nat)
    requires WellFormed(cols) && i < |cols| && Trouble(cols, i)
    requires NoTrouble(cols[..i])
    ensures Apart(Simple(cols).runs, Fast(cols).runs, k)
    decreases |cols|
  {
    hide Simple, Fast, SimpleStep, FastStep, Apart;
    var n := |cols| - 1;
    var rest := cols[..n];
    StepsUnfold(cols);
    if i == n {
      SimpleIsFast(rest);
      FastLossless(rest);
      k := |Fast(rest).runs| - 1;
      TroubleStarts(Fast(rest), cols[n], cols[n - 1].attr);
    } else {
      assert rest[..i] == cols[..i] && Trouble(rest, i);
      k := TroubleSeparates(rest, i);
      StepKeepsApart(Simple(rest), Fast(rest), cols[n], k);
    }
  }

  lemma FirstTrouble(cols: seq<Column>) returns (i: nat)
    requires !NoTrouble(cols)
    ensures i < |cols| && Trouble(cols, i) && NoTrouble(cols[..i])
  {
    i := 0;
    while !Trouble(cols, i)
      invariant i < |cols| && forall j :: 0 <= j < i ==> !Trouble(cols, j)
      invariant exists j :: i <= j < |cols| && Trouble(cols, j)
      decreases |cols| - i
    {
      i := i + 1;
    }
    forall j | 0 <= j < i ensures !Trouble(cols[..i], j) {
      assert Trouble(cols[..i], j) <==> Trouble(cols, j);
    }
  }

  /** The fast snapshot builds the same runs as the simple serialiser exactly when
      no missing cell follows a column that a blank could be mistaken for. */
  lemma FastIsSimpleExactlyWhen(cols: seq<Column>)
    requires WellFormed(cols)
    ensures Simple(cols).runs == Fast(cols).runs <==> NoTrouble(cols)
  {
    if NoTrouble(cols) {
      SimpleIsFast(cols);
    } else {
      var i := FirstTrouble(cols);
      var k := TroubleSeparates(cols, i);
    }
  }

  lemma {:induction false} ColumnsWellFormed(row: Row, cols: nat, c: nat, palette: Color -> Color, width: string -> nat)
    ensures WellFormed(Columns(row, cols, c, palette, width))
    ensures cols <= |row| ==> forall i :: 0 <= i < |Columns(row, cols, c, palette, width)| ==>
              !Columns(row, cols, c, palette, width)[i].missing
    decreases cols - c
  {
    if c < cols {
      var col := ColumnAt(row, c, palette, width);
      ColumnsWellFormed(row, cols, c + col.width, palette, width);
    }
  }

  /** With a cell in every column the two forms agree on every row, and both
      expand to exactly the visited cells. */
  lemma FullRowsAgree(row: Row, cols: nat, palette: Color -> Color, width: string -> nat)
    requires cols <= |row|
    ensures var all := Columns(row, cols, 0, palette, width);
            && Simple(all).runs == Fast(all).runs
            && RunMarks(Simple(all).runs) == ColumnMarks(all)
            && RunWidth(Simple(all).runs) == ColumnWidth(all)
            && Distinct(Simple(all).runs)
  {
    hide Columns, Simple, Fast, RunMarks, RunWidth, ColumnMarks, ColumnWidth;
    var all := Columns(row, cols, 0, palette, width);
    ColumnsWellFormed(row, cols, 0, palette, width);
    SimpleIsFast(all);
    FastLossless(all);
  }

  // ----- the runs on the cells -----

  /** The attributes of a cell, each told by its own field; the flag byte holds one bit
      for each mode. */
  ghost predicate Tells(attr: Attr, cell: Cell, palette: Color -> Color) {
    var style := cell.style;
    && attr.fg == palette(style.fg) && attr.bg == palette(style.bg) && attr.ulcolor == palette(style.ulcolor)
    && attr.link == cell.link
    && attr.ul < 6 && [NoUnderline, Straight, Double, Curly, Dotted, Dashed][attr.ul] == style.ul
    && attr.flags == (if style.intensity == Dim then 1 else 0) + (if style.intensity == Bold then 2 else 0)
                     + (if style.italic then 4 else 0) + (if style.ul != NoUnderline then 8 else 0)
                     + (if style.inverse then 16 else 0) + (if style.blink then 32 else 0)
                     + (if style.hidden then 64 else 0) + (if style.strike then 128 else 0)
  }

  lemma CellIsTold(cell: Cell, palette: Color -> Color)
    ensures Tells(AttrOf(cell, palette), cell, palette)
  {}

  /** `marks` are the characters of the cells visited from column `c` on, and `total` is
      the columns they take: at each position the cell's text, or a space, in the cell's
      attributes, and the next position past the text's width. A column without a cell is
      a plain space. */
  ghost predicate ShowsCells(row: Row, cols: nat, c: nat, palette: Color -> Color, width: string -> nat,
                             marks: seq<Mark>, total: nat)
    decreases cols - c
  {
    if c >= cols then marks == [] && total == 0
    else if c >= |row| then
      && marks != [] && marks[0] == Mark(' ', Attr(Default, Default, 0, 0, 0, Default)) && total >= 1
      && ShowsCells(row, cols, c + 1, palette, width, marks[1..], total - 1)
    else
      var text := if row[c].contents == "" then " " else row[c].contents;
      var step: nat := if width(text) == 0 then 1 else width(text);
      && |text| <= |marks| && step <= total
      && (forall i :: 0 <= i < |text| ==> marks[i].c == text[i] && Tells(marks[i].attr, row[c], palette))
      && ShowsCells(row, cols, c + step, palette, width, marks[|text|..], total - step)
  }

  lemma {:induction false} MarksAre(text: string, attr: Attr)
    ensures |Marks(text, attr)| == |text|
    ensures forall i :: 0 <= i < |text| ==> Marks(text, attr)[i] == Mark(text[i], attr)
  {
    if text != "" { MarksAre(text[..|text| - 1], attr); }
  }

  lemma {:induction false} FirstColumn(col: Column, rest: seq<Column>)
    ensures ColumnMarks([col] + rest) == Marks(col.text, col.attr) + ColumnMarks(rest)
    ensures ColumnWidth([col] + rest) == col.width + ColumnWidth(rest)
  {
    hide Marks;
    if rest == [] {
      assert [col] + rest == [col] && [col][..0] == [];
      assert ColumnMarks([col]) == ColumnMarks([]) + Marks(col.text, col.attr);
    } else {
      var n := |rest| - 1;
      FirstColumn(col, rest[..n]);
      assert ([col] + rest)[..n + 1] == [col] + rest[..n];
      Associate(Marks(col.text, col.attr), ColumnMarks(rest[..n]), Marks(rest[n].text, rest[n].attr));
    }
  }

  lemma ShowsColumn(row: Row, cols: nat, c: nat, palette: Color -> Color, width: string -> nat,
                    marks: seq<Mark>, total: nat)
    requires c < cols
    requires ShowsCells(row, cols, c + ColumnAt(row, c, palette, width).width, palette, width, marks, total)
    ensures var col := ColumnAt(row, c, palette, width);
            ShowsCells(row, cols, c, palette, width, Marks(col.text, col.attr) + marks, col.width + total)
  {
    hide Marks, Tells, AttrOf;
    var col := ColumnAt(row, c, palette, width);
    var first := Marks(col.text, col.attr);
    MarksAre(col.text, col.attr);
    assert (first + marks)[|col.text|..] == marks;
    if c < |row| {
      CellIsTold(row[c], palette);
    }
  }

  /** The visited columns show the cells of the row. */
  lemma {:induction false} ColumnsShow(row: Row, cols: nat, c: nat, palette: Color -> Color, width: string -> nat)
    ensures var all := Columns(row, cols, c, palette, width);
            ShowsCells(row, cols, c, palette, width, ColumnMarks(all), ColumnWidth(all))
    decreases cols - c
  {
    hide ColumnAt, ColumnMarks, ColumnWidth, ShowsCells;
    if c >= cols {
      NothingShown(row, cols, c, palette, width);
    } else {
      var col := ColumnAt(row, c, palette, width);
      var rest := Columns(row, cols, c + col.width, palette, width);
      ColumnsShow(row, cols, c + col.width, palette, width);
      FirstColumn(col, rest);
      ShowsColumn(row, cols, c, palette, width, ColumnMarks(rest), ColumnWidth(rest));
    }
  }

  lemma NothingShown(row: Row, cols: nat, c: nat, palette: Color -> Color, width: string -> nat)
    requires c >= cols
    ensures ShowsCells(row, cols, c, palette, width, ColumnMarks([]), ColumnWidth([]))
  {}

  /** The fast snapshot shows every row's cells, and the simple serialiser those of every
      row with a cell in each column. */
  lemma RunsShowCells(row: Row, cols: nat, palette: Color -> Color, width: string -> nat)
    ensures var fast := Fast(Columns(row, cols, 0, palette, width)).runs;
            ShowsCells(row, cols, 0, palette, width, RunMarks(fast), RunWidth(fast))
    ensures cols <= |row| ==>
              var simple := Simple(Columns(row, cols, 0, palette, width)).runs;
              ShowsCells(row, cols, 0, palette, width, RunMarks(simple), RunWidth(simple))
  {
    hide Columns, Simple, Fast, RunMarks, RunWidth, ColumnMarks, ColumnWidth, ShowsCells;
    FastLossless(Columns(row, cols, 0, palette, width));
    ColumnsShow(row, cols, 0, palette, width);
    if cols <= |row| { FullRowsAgree(row, cols, palette, width); }
  }

  /** A row of one cell with an underline colour but no underline, in a pane of two
      columns: the simple form makes one run of it, the fast form two. */
  lemma MissingCellDiffers(palette: Color -> Color, width: string -> nat)
    requires palette(Default) == Default && palette(Idx(1)) == Idx(1) && width("x") == 1
    ensures var cols := Columns([Cell("x", false, PLAIN.(ulcolor := Idx(1)), 0)], 2, 0, palette, width);
            |Simple(cols).runs| == 1 && |Fast(cols).runs| == 2
  {
    hide Columns, Simple, Fast;
    MissingCellColumns(palette, width);
    MissingCellRuns();
  }

  lemma MissingCellColumns(palette: Color -> Color, width: string -> nat)
    requires palette(Default) == Default && palette(Idx(1)) == Idx(1) && width("x") == 1
    ensures Columns([Cell("x", false, PLAIN.(ulcolor := Idx(1)), 0)], 2, 0, palette, width)
         == [Column("x", 1, BLANK.(ulcolor := Idx(1)), false), Column(" ", 1, BLANK, true)]
  {
    hide ColumnAt, Columns;
    var row := [Cell("x", false, PLAIN.(ulcolor := Idx(1)), 0)];
    MissingCellVisits(palette, width);
    ColumnsUnfold(row, 2, 0, palette, width);
    ColumnsUnfold(row, 2, 1, palette, width);
    ColumnsUnfold(row, 2, 2, palette, width);
  }

  lemma ColumnsUnfold(row: Row, cols: nat, c: nat, palette: Color -> Color, width: string -> nat)
    ensures Columns(row, cols, c, palette, width) ==
              if c >= cols then []
              else
                var col := ColumnAt(row, c, palette, width);
                [col] + Columns(row, cols, c + col.width, palette, width)
  {
    hide ColumnAt;
  }

  lemma MissingCellVisits(palette: Color -> Color, width: string -> nat)
    requires palette(Default) == Default && palette(Idx(1)) == Idx(1) && width("x") == 1
    ensures var row := [Cell("x", false, PLAIN.(ulcolor := Idx(1)), 0)];
            && ColumnAt(row, 0, palette, width) == Column("x", 1, BLANK.(ulcolor := Idx(1)), false)
            && ColumnAt(row, 1, palette, width) == Column(" ", 1, BLANK, true)
  {
    var cell := Cell("x", false, PLAIN.(ulcolor := Idx(1)), 0);
    assert FlagsOf(cell.style) == 0;
    hide FlagsOf;
    assert AttrOf(cell, palette) == BLANK.(ulcolor := Idx(1));
    hide AttrOf;
    assert CellText(cell) == "x";
  }

  lemma MissingCellRuns()
    ensures var cols := [Column("x", 1, BLANK.(ulcolor := Idx(1)), false), Column(" ", 1, BLANK, true)];
            |Simple(cols).runs| == 1 && |Fast(cols).runs| == 2
  {
    hide Simple, Fast;
    var a, b := Column("x", 1, BLANK.(ulcolor := Idx(1)), false), Column(" ", 1, BLANK, true);
    assert [a, b][..1] == [a] && [a][..0] == [];
    StepsUnfold([a, b]);
    StepsUnfold([a]);
    NoSteps();
  }
}
