/** SGR control sequences: the ones the styled capture writes (`copy_mode.rs`)
    and the way the terminal reads them back (`vt100-psmux/src/screen.rs`). */
module Sgr {
  import opened Text
  import opened Terminal

  /** Parameters as a control sequence carries them: each may have subparameters. */
  type Param = seq<nat>

  const ESC: char := '\U{1B}'

  // ----- writing -----

  function FormatSubs(p: Param): string {
    if |p| == 0 then "" else if |p| == 1 then Decimal(p[0]) else Decimal(p[0]) + (":" + FormatSubs(p[1..]))
  }

  function FormatParams(ps: seq<Param>): string {
    if |ps| == 0 then "" else if |ps| == 1 then FormatSubs(ps[0])
    else FormatSubs(ps[0]) + (";" + FormatParams(ps[1..]))
  }

  function Sequence(ps: seq<Param>): string { [ESC, '['] + (FormatParams(ps) + "m") }

  function When(b: bool, p: Param): seq<Param> { if b then [p] else [] }

  function UnderlineCode(u: Underline): nat {
    match u
    case NoUnderline => 0
    case Straight => 1
    case Double => 2
    case Curly => 3
    case Dotted => 4
    case Dashed => 5
  }

  function UnderlineParams(u: Underline): seq<Param> {
    match u
    case NoUnderline => []
    case Straight => [[4]]
    case _ => [[4, UnderlineCode(u)]]
  }

  function Extended(code: nat, c: Color): seq<Param> {
    match c
    case Default => []
    case Idx(n) => [[code], [5], [n]]
    case Rgb(r, g, b) => [[code], [2], [r], [g], [b]]
  }

  /** Foreground (30, 90, 38) or background (40, 100, 48). */
  function ColorParams(normal: nat, bright: nat, extended: nat, c: Color): seq<Param> {
    match c
    case Idx(n) => if n < 8 then [[normal + n]] else if n < 16 then [[bright + n - 8]] else Extended(extended, c)
    case _ => Extended(extended, c)
  }

  function ColorsParams(s: Style): seq<Param> {
    ColorParams(30, 90, 38, s.fg) + (ColorParams(40, 100, 48, s.bg) + Extended(58, s.ulcolor))
  }

  function ModesParams(s: Style, rest: seq<Param>): seq<Param> {
    When(s.blink, [5]) + (When(s.inverse, [7]) + (When(s.hidden, [8]) + (When(s.strike, [9]) + rest)))
  }

  function FontParams(s: Style, rest: seq<Param>): seq<Param> {
    When(s.intensity.Bold?, [1]) + (When(s.intensity.Dim?, [2])
    + (When(s.italic, [3]) + (UnderlineParams(s.ul) + rest)))
  }

  /** The parameters for a style: a reset, then everything that is set. */
  function StyleParams(s: Style): seq<Param> {
    [[0]] + FontParams(s, ModesParams(s, ColorsParams(s)))
  }

  function SetStyle(s: Style): string { Sequence(StyleParams(s)) }

  const RESET := [ESC] + "[0m"

  // ----- reading -----

  predicate IsByte(p: Param) { |p| == 1 && p[0] < 256 }

  /** What follows a 38, 48 or 58 in the semicolon form: a colour, and the
      parameters after it. */
  function ExtendedColor(ps: seq<Param>): Option<(Color, seq<Param>)> {
    if |ps| >= 4 && ps[0] == [2] && IsByte(ps[1]) && IsByte(ps[2]) && IsByte(ps[3])
    then Some((Rgb(ps[1][0], ps[2][0], ps[3][0]), ps[4..]))
    else if |ps| >= 2 && ps[0] == [5] && IsByte(ps[1])
    then Some((Idx(ps[1][0]), ps[2..]))
    else None
  }

  function UnderlineOf(n: nat): Underline {
    match n
    case 0 => NoUnderline
    case 2 => Double
    case 3 => Curly
    case 4 => Dotted
    case 5 => Dashed
    case _ => Straight
  }

  /** A parameter that stands for itself. */
  function ApplyOne(p: Param, s: Style): Style {
    if p == [0] then PLAIN
    else if p == [1] then s.(intensity := Bold)
    else if p == [2] then s.(intensity := Dim)
    else if p == [3] then s.(italic := true)
    else if p == [4] then s.(ul := Straight)
    else if |p| == 2 && p[0] == 4 then s.(ul := UnderlineOf(p[1]))
    else if p == [21] then s.(ul := Double)
    else if p == [5] || p == [6] then s.(blink := true)
    else if p == [7] then s.(inverse := true)
    else if p == [8] then s.(hidden := true)
    else if p == [9] then s.(strike := true)
    else if p == [22] then s.(intensity := Normal)
    else if p == [23] then s.(italic := false)
    else if p == [24] then s.(ul := NoUnderline)
    else if p == [25] then s.(blink := false)
    else if p == [27] then s.(inverse := false)
    else if p == [28] then s.(hidden := false)
    else if p == [29] then s.(strike := false)
    else if |p| == 1 && 30 <= p[0] <= 37 then s.(fg := Idx(p[0] - 30))
    else if p == [39] then s.(fg := Default)
    else if |p| == 1 && 40 <= p[0] <= 47 then s.(bg := Idx(p[0] - 40))
    else if p == [49] then s.(bg := Default)
    else if p == [59] then s.(ulcolor := Default)
    else if |p| == 1 && 90 <= p[0] <= 97 then s.(fg := Idx(p[0] - 82))
    else if |p| == 1 && 100 <= p[0] <= 107 then s.(bg := Idx(p[0] - 92))
    else s
  }

  /** `Screen::sgr`, for the single-number, `4:n` and semicolon colour forms. */
  function Apply(ps: seq<Param>, s: Style): Style
    decreases |ps|
  {
    if ps == [] then s
    else if ps[0] == [38] || ps[0] == [48] || ps[0] == [58] then
      match ExtendedColor(ps[1..])
      case None => s
      case Some((c, rest)) =>
        if |rest| >= |ps| then s
        else Apply(rest, if ps[0] == [38] then s.(fg := c) else if ps[0] == [48] then s.(bg := c) else s.(ulcolor := c))
    else Apply(ps[1..], ApplyOne(ps[0], s))
  }

  // ----- a style survives -----

  lemma ApplyFlag(b: bool, p: Param, rest: seq<Param>, s: Style)
    requires |p| == 1 && p[0] < 10
    ensures Apply(When(b, p) + rest, s) == Apply(rest, if b then ApplyOne(p, s) else s)
  {
    hide ApplyOne, ExtendedColor;
    if b { assert ([p] + rest)[1..] == rest; } else { assert [] + rest == rest; }
  }

  lemma ApplyUnderline(u: Underline, rest: seq<Param>, s: Style)
    requires s.ul == NoUnderline
    ensures Apply(UnderlineParams(u) + rest, s) == Apply(rest, s.(ul := u))
  {
    hide ExtendedColor;
    if u.NoUnderline? {
      assert [] + rest == rest && s.(ul := u) == s;
    } else {
      var p := UnderlineParams(u)[0];
      assert ([p] + rest)[1..] == rest && UnderlineParams(u) == [p];
      assert ApplyOne(p, s) == s.(ul := u);
    }
  }

  function WithColor(code: nat, c: Color, s: Style): Style {
    if code == 38 then s.(fg := c) else if code == 48 then s.(bg := c) else s.(ulcolor := c)
  }

  lemma ExtendedColorReads(c: Color, code: nat, rest: seq<Param>)
    requires !c.Default?
    ensures ExtendedColor((Extended(code, c) + rest)[1..]) == Some((c, rest))
  {
    var ps := (Extended(code, c) + rest)[1..];
    match c
    case Idx(n) => assert ps == [[5], [n]] + rest && ps[2..] == rest;
    case Rgb(r, g, b) => assert ps == [[2], [r], [g], [b]] + rest && ps[4..] == rest;
  }

  lemma ApplyExtended(code: nat, c: Color, rest: seq<Param>, s: Style)
    requires code == 38 || code == 48 || code == 58
    requires c.Default? ==> WithColor(code, c, s) == s
    ensures Apply(Extended(code, c) + rest, s) == Apply(rest, WithColor(code, c, s))
  {
    hide ApplyOne, ExtendedColor;
    if c.Default? {
      assert [] + rest == rest;
    } else {
      ExtendedColorReads(c, code, rest);
      assert (Extended(code, c) + rest)[0] == [code];
    }
  }

  lemma ApplyColor(code: nat, c: Color, rest: seq<Param>, s: Style)
    requires code == 38 || code == 48
    requires c.Default? ==> WithColor(code, c, s) == s
    ensures Apply(ColorParams(code - 8, code + 52, code, c) + rest, s) == Apply(rest, WithColor(code, c, s))
  {
    if c.Idx? && c.n < 16 {
      hide ExtendedColor;
      var p := ColorParams(code - 8, code + 52, code, c)[0];
      assert ([p] + rest)[1..] == rest;
      assert ApplyOne(p, s) == WithColor(code, c, s);
    } else {
      hide Apply;
      ApplyExtended(code, c, rest, s);
    }
  }

  lemma ApplyReset(rest: seq<Param>, s: Style)
    ensures Apply([[0]] + rest, s) == Apply(rest, PLAIN)
  {
    hide ExtendedColor;
    assert ([[0]] + rest)[1..] == rest;
  }

  lemma FlagsSet(s: Style)
    ensures ApplyOne([1], s) == s.(intensity := Bold) && ApplyOne([2], s) == s.(intensity := Dim)
    ensures ApplyOne([3], s) == s.(italic := true) && ApplyOne([5], s) == s.(blink := true)
    ensures ApplyOne([7], s) == s.(inverse := true) && ApplyOne([8], s) == s.(hidden := true)
    ensures ApplyOne([9], s) == s.(strike := true)
  {}

  lemma FontApplies(s: Style, rest: seq<Param>)
    ensures Apply(FontParams(s, rest), PLAIN)
         == Apply(rest, PLAIN.(intensity := s.intensity, italic := s.italic, ul := s.ul))
  {
    hide Apply, ApplyOne, When, UnderlineParams;
    var r4 := UnderlineParams(s.ul) + rest;
    var r3 := When(s.italic, [3]) + r4;
    var r2 := When(s.intensity.Dim?, [2]) + r3;
    FlagsSet(PLAIN);
    ApplyFlag(s.intensity.Bold?, [1], r2, PLAIN);
    var s1 := if s.intensity.Bold? then PLAIN.(intensity := Bold) else PLAIN;
    FlagsSet(s1);
    ApplyFlag(s.intensity.Dim?, [2], r3, s1);
    var s2 := PLAIN.(intensity := s.intensity);
    FlagsSet(s2);
    ApplyFlag(s.italic, [3], r4, s2);
    ApplyUnderline(s.ul, rest, s2.(italic := s.italic));
  }

  lemma ModesApply(s: Style, rest: seq<Param>, font: Style)
    requires !font.blink && !font.inverse && !font.hidden && !font.strike
    ensures Apply(ModesParams(s, rest), font)
         == Apply(rest, font.(blink := s.blink, inverse := s.inverse, hidden := s.hidden, strike := s.strike))
  {
    hide Apply, ApplyOne, When;
    var r4 := When(s.strike, [9]) + rest;
    var r3 := When(s.hidden, [8]) + r4;
    var r2 := When(s.inverse, [7]) + r3;
    FlagsSet(font);
    ApplyFlag(s.blink, [5], r2, font);
    var s1 := font.(blink := s.blink);
    FlagsSet(s1);
    ApplyFlag(s.inverse, [7], r3, s1);
    var s2 := s1.(inverse := s.inverse);
    FlagsSet(s2);
    ApplyFlag(s.hidden, [8], r4, s2);
    var s3 := s2.(hidden := s.hidden);
    FlagsSet(s3);
    ApplyFlag(s.strike, [9], rest, s3);
  }

  lemma ColorsApply(s: Style, modes: Style)
    requires modes.fg == modes.bg == modes.ulcolor == Default
    ensures Apply(ColorsParams(s), modes) == modes.(fg := s.fg, bg := s.bg, ulcolor := s.ulcolor)
  {
    hide Apply, ColorParams, Extended;
    var last := Extended(58, s.ulcolor);
    ApplyColor(38, s.fg, ColorParams(40, 100, 48, s.bg) + last, modes);
    var s1 := modes.(fg := s.fg);
    ApplyColor(48, s.bg, last, s1);
    var s2 := s1.(bg := s.bg);
    ApplyExtended(58, s.ulcolor, [], s2);
    assert last + [] == last;
    ApplyEnds(s2.(ulcolor := s.ulcolor));
  }

  /** Reading the parameters written for a style sets exactly that style,
      whatever was in force before. */
  lemma StyleParamsApply(s: Style, before: Style)
    ensures Apply(StyleParams(s), before) == s
  {
    hide Apply, FontParams, ModesParams, ColorsParams;
    var modes := ModesParams(s, ColorsParams(s));
    ApplyReset(FontParams(s, modes), before);
    FontApplies(s, modes);
    var font := PLAIN.(intensity := s.intensity, italic := s.italic, ul := s.ul);
    ModesApply(s, ColorsParams(s), font);
    ColorsApply(s, font.(blink := s.blink, inverse := s.inverse, hidden := s.hidden, strike := s.strike));
  }

  lemma ApplyEnds(s: Style)
    ensures Apply([], s) == s
  {}

  // ----- modes are switched off again -----

  predicate IntroducesColor(p: Param) { p == [38] || p == [48] || p == [58] }

  lemma ApplyTwo(p: Param, q: Param, s: Style)
    requires !IntroducesColor(p) && !IntroducesColor(q)
    ensures Apply([p], s) == ApplyOne(p, s) && Apply([p, q], s) == ApplyOne(q, ApplyOne(p, s))
  {
    hide ApplyOne, ExtendedColor;
    assert [p, q][1..] == [q] && [q][1..] == [] && [p][1..] == [];
    ApplyEnds(ApplyOne(q, ApplyOne(p, s)));
  }

  /** `code` switches to a style that differs from `s`, and `off` switches back. */
  ghost predicate Undoes(off: nat, code: Param, s: Style) { Apply([code], s) != s && Apply([code, [off]], s) == s }

  lemma FlagsCleared(s: Style)
    ensures ApplyOne([22], s) == s.(intensity := Normal) && ApplyOne([23], s) == s.(italic := false)
    ensures ApplyOne([25], s) == s.(blink := false) && ApplyOne([27], s) == s.(inverse := false)
    ensures ApplyOne([28], s) == s.(hidden := false) && ApplyOne([29], s) == s.(strike := false)
    ensures ApplyOne([6], s) == s.(blink := true)
  {
    hide ApplyOne;
    FontCleared(s);
    LightCleared(s);
  }

  lemma FontCleared(s: Style)
    ensures ApplyOne([22], s) == s.(intensity := Normal) && ApplyOne([23], s) == s.(italic := false)
    ensures ApplyOne([6], s) == s.(blink := true)
  {}

  lemma LightCleared(s: Style)
    ensures ApplyOne([25], s) == s.(blink := false) && ApplyOne([27], s) == s.(inverse := false)
    ensures ApplyOne([28], s) == s.(hidden := false) && ApplyOne([29], s) == s.(strike := false)
  {}

  /** Every mode that is off is switched on by its code and off again by the other one. */
  lemma ModesSwitchOff(s: Style)
    ensures s.intensity == Normal ==> Undoes(22, [1], s) && Undoes(22, [2], s)
    ensures !s.italic ==> Undoes(23, [3], s)
    ensures !s.blink ==> Undoes(25, [5], s) && Undoes(25, [6], s)
    ensures !s.inverse ==> Undoes(27, [7], s)
    ensures !s.hidden ==> Undoes(28, [8], s)
    ensures !s.strike ==> Undoes(29, [9], s)
  {
    hide Apply, ApplyOne;
    FlagsSet(s);
    FlagsCleared(s);
    OffCode(s, 22, [1]);
    OffCode(s, 22, [2]);
    OffCode(s, 23, [3]);
    OffCode(s, 25, [5]);
    OffCode(s, 25, [6]);
    OffCode(s, 27, [7]);
    OffCode(s, 28, [8]);
    OffCode(s, 29, [9]);
  }

  lemma OffCode(s: Style, off: nat, code: Param)
    requires !IntroducesColor(code) && off in [22, 23, 25, 27, 28, 29]
    ensures Apply([code], s) == ApplyOne(code, s)
    ensures Apply([code, [off]], s) ==
              var t := ApplyOne(code, s);
              if off == 22 then t.(intensity := Normal) else if off == 23 then t.(italic := false)
              else if off == 25 then t.(blink := false) else if off == 27 then t.(inverse := false)
              else if off == 28 then t.(hidden := false) else t.(strike := false)
  {
    hide Apply, ApplyOne;
    ApplyTwo(code, [off], s);
    FlagsCleared(ApplyOne(code, s));
  }

  lemma UnderlineCodes(s: Style, n: nat)
    ensures ApplyOne([4], s) == s.(ul := Straight) && ApplyOne([21], s) == s.(ul := Double)
    ensures ApplyOne([4, n], s) == s.(ul := UnderlineOf(n))
    ensures ApplyOne([24], s) == s.(ul := NoUnderline)
  {}

  /** So are the underlines, the old double one included; an unknown style is straight. */
  lemma UnderlinesSwitchOff(s: Style, n: nat)
    requires s.ul == NoUnderline
    ensures Undoes(24, [4], s) && Undoes(24, [21], s) && (n > 0 ==> Undoes(24, [4, n], s))
    ensures Apply([[4, 0]], s) == s && Apply([[21]], s) == Apply([[4, 2]], s)
    ensures n == 1 || n > 5 ==> Apply([[4, n]], s) == Apply([[4]], s)
  {
    hide Apply, ApplyOne;
    UnderlineCodes(s, n);
    UnderlineCodes(s, 0);
    UnderlineCodes(s, 2);
    ApplyTwo([4], [24], s);
    UnderlineCodes(s.(ul := Straight), n);
    ApplyTwo([21], [24], s);
    UnderlineCodes(s.(ul := Double), n);
    ApplyTwo([4, n], [24], s);
    UnderlineCodes(s.(ul := UnderlineOf(n)), n);
    ApplyTwo([4, 0], [24], s);
    ApplyTwo([4, 2], [24], s);
  }

  lemma ColorCodes(s: Style, n: Byte)
    requires n < 8
    ensures ApplyOne([30 + n], s) == s.(fg := Idx(n)) && ApplyOne([40 + n], s) == s.(bg := Idx(n))
    ensures ApplyOne([90 + n], s) == s.(fg := Idx(n + 8)) && ApplyOne([100 + n], s) == s.(bg := Idx(n + 8))
  {
    hide ApplyOne;
    DarkCodes(s, n);
    BrightCodes(s, n);
  }

  lemma DarkCodes(s: Style, n: Byte)
    requires n < 8
    ensures ApplyOne([30 + n], s) == s.(fg := Idx(n)) && ApplyOne([40 + n], s) == s.(bg := Idx(n))
  {}

  lemma BrightCodes(s: Style, n: Byte)
    requires n < 8
    ensures ApplyOne([90 + n], s) == s.(fg := Idx(n + 8)) && ApplyOne([100 + n], s) == s.(bg := Idx(n + 8))
  {}

  lemma ColorsCleared(s: Style)
    ensures ApplyOne([39], s) == s.(fg := Default) && ApplyOne([49], s) == s.(bg := Default)
    ensures ApplyOne([59], s) == s.(ulcolor := Default)
  {}

  /** And the basic colours. */
  lemma ColorsSwitchOff(s: Style, n: Byte)
    requires n < 8
    ensures s.fg == Default ==> Undoes(39, [30 + n], s) && Undoes(39, [90 + n], s)
    ensures s.bg == Default ==> Undoes(49, [40 + n], s) && Undoes(49, [100 + n], s)
    ensures Apply([[59]], s) == s.(ulcolor := Default)
  {
    hide Apply, ApplyOne;
    ColorCodes(s, n);
    ColorsCleared(s);
    ApplyTwo([30 + n], [39], s);
    ColorsCleared(s.(fg := Idx(n)));
    ApplyTwo([90 + n], [39], s);
    ColorsCleared(s.(fg := Idx(n + 8)));
    ApplyTwo([40 + n], [49], s);
    ColorsCleared(s.(bg := Idx(n)));
    ApplyTwo([100 + n], [49], s);
    ColorsCleared(s.(bg := Idx(n + 8)));
    ApplyTwo([59], [59], s);
  }

  /** A code without a meaning changes nothing, nor do subparameters where there are none;
      a colour that is neither of the two kinds or is cut short ends the sequence. */
  lemma UnknownChangesNothing(s: Style, code: nat, n: nat, rest: seq<Param>)
    requires code in [10, 20, 26, 30, 37, 50, 60, 89, 98, 108]
    ensures code != 30 && code != 37 ==> Apply([[code]], s) == s
    ensures Apply([[code, n]], s) == s
    ensures n != 2 && n != 5 ==>
              Apply([[38], [n]] + rest, s) == Apply([[48], [n]] + rest, s) == Apply([[58], [n]] + rest, s) == s
    ensures Apply([[38], [5]], s) == Apply([[38], [2], [n], [n]], s) == Apply([[38]], s) == s
  {
    hide ApplyOne;
    NoMeaning(s, code, n);
    ApplyTwo([code], [code], s);
    ApplyTwo([code, n], [code, n], s);
    assert ([[38], [n]] + rest)[1..] == ([[48], [n]] + rest)[1..] == ([[58], [n]] + rest)[1..] == [[n]] + rest;
    assert [[38], [5]][1..] == [[5]] && [[38], [2], [n], [n]][1..] == [[2], [n], [n]] && [[38]][1..] == [];
  }

  lemma NoMeaning(s: Style, code: nat, n: nat)
    requires code in [10, 20, 26, 30, 37, 50, 60, 89, 98, 108]
    ensures code != 30 && code != 37 ==> ApplyOne([code], s) == s
    ensures ApplyOne([code, n], s) == s
  {}

  // ----- parameters survive as text -----

  /** Cut at every `c`. */
  function Cut(s: string, c: char): (r: seq<string>)
    ensures r != []
  {
    if s == "" then [""]
    else
      var rest := Cut(s[1..], c);
      if s[0] == c then [""] + rest else [[s[0]] + rest[0]] + rest[1..]
  }

  /** A missing number is 0. */
  function Number(s: string): nat {
    match ParseUnsigned(s, U16_MAX)
    case None => 0
    case Some(n) => n
  }

  function Numbers(ss: seq<string>): (r: seq<nat>)
    ensures |r| == |ss|
  {
    if ss == [] then [] else [Number(ss[0])] + Numbers(ss[1..])
  }

  function ReadAll(ss: seq<string>): seq<Param> {
    if ss == [] then [] else [Numbers(Cut(ss[0], ':'))] + ReadAll(ss[1..])
  }

  /** The parameters in the text between `[` and `m`. */
  function ReadParams(s: string): seq<Param> { ReadAll(Cut(s, ';')) }

  lemma {:induction false} CutClean(s: string, c: char)
    requires c !in s
    ensures Cut(s, c) == [s]
  {
    if s != "" {
      CutClean(s[1..], c);
      assert [s[0]] + s[1..] == s;
    }
  }

  lemma {:induction false} CutFirst(a: string, c: char, b: string)
    requires c !in a
    ensures Cut(a + ([c] + b), c) == [a] + Cut(b, c)
  {
    var s := a + ([c] + b);
    if a == "" {
      assert s == [c] + b && s[1..] == b;
    } else {
      assert s[0] == a[0] && s[0] in a && s[1..] == a[1..] + ([c] + b);
      CutFirst(a[1..], c, b);
      var rest := Cut(s[1..], c);
      assert rest[0] == a[1..] && rest[1..] == Cut(b, c);
      assert [a[0]] + a[1..] == a;
    }
  }

  ghost predicate SmallParam(p: Param) { p != [] && forall n <- p :: n <= U16_MAX }

  lemma DecimalHas(n: nat, c: char)
    requires !IsDigit(c)
    ensures c !in Decimal(n)
  {}

  lemma {:induction false} SubsHave(p: Param, c: char)
    requires !IsDigit(c) && c != ':'
    ensures c !in FormatSubs(p)
  {
    if |p| > 0 { DecimalHas(p[0], c); }
    if |p| > 1 { SubsHave(p[1..], c); }
  }

  lemma {:induction false} ParamsHave(ps: seq<Param>, c: char)
    requires !IsDigit(c) && c != ':' && c != ';'
    ensures c !in FormatParams(ps)
  {
    if |ps| > 0 { SubsHave(ps[0], c); }
    if |ps| > 1 { ParamsHave(ps[1..], c); }
  }

  lemma {:induction false} SubsRead(p: Param)
    requires SmallParam(p)
    ensures Numbers(Cut(FormatSubs(p), ':')) == p
  {
    hide Decimal, Number;
    assert p[0] in p;
    NumberReads(p[0]);
    DecimalHas(p[0], ':');
    if |p| == 1 {
      CutClean(FormatSubs(p), ':');
      assert Numbers([FormatSubs(p)]) == [p[0]];
    } else {
      CutFirst(Decimal(p[0]), ':', FormatSubs(p[1..]));
      var cut := Cut(FormatSubs(p), ':');
      assert cut[0] == Decimal(p[0]) && cut[1..] == Cut(FormatSubs(p[1..]), ':');
      assert forall n :: n in p[1..] ==> n in p;
      SubsRead(p[1..]);
      assert [p[0]] + p[1..] == p;
    }
  }

  lemma NumberReads(n: nat)
    requires n <= U16_MAX
    ensures Number(Decimal(n)) == n
  {
    ParsePrinted(n, U16_MAX);
  }

  lemma {:induction false} ParamsRead(ps: seq<Param>)
    requires ps != [] && forall p <- ps :: SmallParam(p)
    ensures ReadParams(FormatParams(ps)) == ps
  {
    hide FormatSubs, Numbers, SmallParam;
    assert ps[0] in ps;
    SubsRead(ps[0]);
    SubsHave(ps[0], ';');
    if |ps| == 1 {
      CutClean(FormatParams(ps), ';');
      assert ReadAll([FormatSubs(ps[0])]) == [ps[0]] + ReadAll([]);
    } else {
      CutFirst(FormatSubs(ps[0]), ';', FormatParams(ps[1..]));
      var cut := Cut(FormatParams(ps), ';');
      assert cut[0] == FormatSubs(ps[0]) && cut[1..] == Cut(FormatParams(ps[1..]), ';');
      assert forall p :: p in ps[1..] ==> p in ps;
      ParamsRead(ps[1..]);
      assert [ps[0]] + ps[1..] == ps;
    }
  }

  lemma SmallConcat(a: seq<Param>, b: seq<Param>)
    requires (forall p <- a :: SmallParam(p)) && (forall p <- b :: SmallParam(p))
    ensures forall p <- a + b :: SmallParam(p)
  {
    hide SmallParam;
  }

  lemma SmallPieces(s: Style)
    ensures forall p <- [[0]] :: SmallParam(p)
    ensures forall b, k | 0 <= k < 10 :: forall p <- When(b, [k]) :: SmallParam(p)
    ensures forall p <- UnderlineParams(s.ul) :: SmallParam(p)
    ensures forall p <- ColorParams(30, 90, 38, s.fg) :: SmallParam(p)
    ensures forall p <- ColorParams(40, 100, 48, s.bg) :: SmallParam(p)
    ensures forall p <- Extended(58, s.ulcolor) :: SmallParam(p)
  {}

  lemma StyleParamsSmall(s: Style)
    ensures StyleParams(s) != [] && forall p <- StyleParams(s) :: SmallParam(p)
  {
    hide When, UnderlineParams, ColorParams, Extended, SmallParam;
    SmallPieces(s);
    var r12 := Extended(58, s.ulcolor);
    SmallConcat(ColorParams(40, 100, 48, s.bg), r12);
    var r11 := ColorParams(40, 100, 48, s.bg) + r12;
    SmallConcat(ColorParams(30, 90, 38, s.fg), r11);
    var r10 := ColorParams(30, 90, 38, s.fg) + r11;
    SmallConcat(When(s.strike, [9]), r10);
    var r9 := When(s.strike, [9]) + r10;
    SmallConcat(When(s.hidden, [8]), r9);
    var r8 := When(s.hidden, [8]) + r9;
    SmallConcat(When(s.inverse, [7]), r8);
    var r7 := When(s.inverse, [7]) + r8;
    SmallConcat(When(s.blink, [5]), r7);
    var r6 := When(s.blink, [5]) + r7;
    SmallConcat(UnderlineParams(s.ul), r6);
    var r5 := UnderlineParams(s.ul) + r6;
    SmallConcat(When(s.italic, [3]), r5);
    var r4 := When(s.italic, [3]) + r5;
    SmallConcat(When(s.intensity.Dim?, [2]), r4);
    var r3 := When(s.intensity.Dim?, [2]) + r4;
    SmallConcat(When(s.intensity.Bold?, [1]), r3);
    var r2 := When(s.intensity.Bold?, [1]) + r3;
    SmallConcat([[0]], r2);
  }

  // ----- reading a stream of text and sequences -----

  /** A character as it appears on a screen. */
  datatype Glyph = Glyph(c: char, style: Style)

  datatype Screenful = Screenful(glyphs: seq<Glyph>, style: Style)

  predicate IsEm(c: char) { c == 'm' }

  /** What a terminal shows for text with SGR sequences, starting in a style. */
  function Show(s: string, style: Style): Screenful
    decreases |s|
  {
    if s == "" then Screenful([], style)
    else if s[0] == ESC && |s| > 1 && s[1] == '[' then
      var end := Find(s[2..], IsEm);
      if end == |s| - 2 then Screenful([], style)
      else Show(s[2 + end + 1..], Apply(ReadParams(s[2..2 + end]), style))
    else
      var rest := Show(s[1..], style);
      Screenful([Glyph(s[0], style)] + rest.glyphs, rest.style)
  }

  function Glyphs(text: string, style: Style): (r: seq<Glyph>)
    ensures |r| == |text|
  {
    if text == "" then [] else [Glyph(text[0], style)] + Glyphs(text[1..], style)
  }

  function Before(glyphs: seq<Glyph>, rest: Screenful): Screenful { Screenful(glyphs + rest.glyphs, rest.style) }

  lemma {:induction false} ShowText(text: string, rest: string, style: Style)
    requires ESC !in text
    ensures Show(text + rest, style) == Before(Glyphs(text, style), Show(rest, style))
    decreases |text|
  {
    hide Apply, ReadParams;
    if text == "" {
      assert text + rest == rest && [] + Show(rest, style).glyphs == Show(rest, style).glyphs;
    } else {
      var s := text + rest;
      assert s[0] == text[0] && s[0] in text && s[1..] == text[1..] + rest;
      ShowText(text[1..], rest, style);
      var tail := Show(rest, style).glyphs;
      assert [Glyph(text[0], style)] + (Glyphs(text[1..], style) + tail) == Glyphs(text, style) + tail;
    }
  }

  lemma ShowSequence(ps: seq<Param>, rest: string, style: Style)
    ensures Show(Sequence(ps) + rest, style) == Show(rest, Apply(ReadParams(FormatParams(ps)), style))
  {
    hide Apply, ReadParams, FormatParams;
    var body := FormatParams(ps);
    var s := Sequence(ps) + rest;
    ParamsHave(ps, 'm');
    assert s[2..] == body + ("m" + rest);
    FindAfter(body, "m" + rest, IsEm);
    assert s[2..2 + |body|] == body && s[2 + |body| + 1..] == rest;
  }

  /** A written style is the style the text after it is shown in. */
  lemma ShowStyle(s: Style, rest: string, before: Style)
    ensures Show(SetStyle(s) + rest, before) == Show(rest, s)
  {
    hide Show, StyleParams, Apply, ReadParams, FormatParams, Sequence;
    ShowSequence(StyleParams(s), rest, before);
    StyleParamsSmall(s);
    ParamsRead(StyleParams(s));
    StyleParamsApply(s, before);
  }

  lemma ShowReset(rest: string, before: Style)
    ensures Show(RESET + rest, before) == Show(rest, PLAIN)
  {
    hide Show, Apply, ReadParams;
    ShowSequence([[0]], rest, before);
    assert Decimal(0) == "0" && FormatParams([[0]]) == "0";
    assert Sequence([[0]]) == RESET;
    assert SmallParam([0]);
    ParamsRead([[0]]);
    assert [[0]] + [] == [[0]];
    ApplyReset([], before);
    ApplyEnds(PLAIN);
  }

  /** A sequence without a number is a reset. */
  lemma ShowBareReset(rest: string, before: Style)
    ensures Show([ESC] + "[m" + rest, before) == Show(rest, PLAIN)
  {
    hide Apply;
    var s := [ESC] + "[m" + rest;
    assert s[2..] == "" + ("m" + rest);
    FindAfter("", "m" + rest, IsEm);
    assert s[2..2] == "" && s[3..] == rest;
    assert ReadParams("") == [[0]] by {
      assert Cut("", ';') == [""] && Cut("", ':') == [""];
      assert Numbers([""]) == [0] && ReadAll([""]) == [[0]] + ReadAll([]);
    }
    assert [[0]] + [] == [[0]];
    ApplyReset([], before);
    ApplyEnds(PLAIN);
  }

  /** A sequence that is not finished shows nothing. */
  lemma ShowUnfinished(body: string, before: Style)
    requires 'm' !in body
    ensures Show([ESC] + "[" + body, before) == Screenful([], before)
  {
    var s := [ESC] + "[" + body;
    assert s[2..] == body && body + "" == body;
    FindAfter(body, "", IsEm);
  }
}
