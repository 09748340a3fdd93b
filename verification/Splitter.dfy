/** Splitting a format argument at top-level delimiters (`format.rs`). */
module Splitter {
  import opened Text

  /** The scanner's position in nested `#{...}` and `#[...]`. */
  datatype Nesting = Nesting(depth: nat, inStyle: bool)

  const TOP := Nesting(0, false)

  predicate Pair(s: string, c: char) { |s| >= 2 && s[0] == '#' && s[1] == c }

  /** What the scanner does at the front of the text: how many characters it
      takes, the nesting after them, and whether they are a delimiter. */
  datatype Move = Move(taken: nat, after: Nesting, cut: bool)

  function Step(s: string, delim: char, n: Nesting): (m: Move)
    requires s != ""
    ensures 1 <= m.taken <= |s| && (m.cut ==> m.taken == 1 && m.after == n == TOP && s[0] == delim)
  {
    if Pair(s, '{') then Move(2, n.(depth := n.depth + 1), false)
    else if s[0] == '}' && n.depth > 0 then Move(1, n.(depth := n.depth - 1), false)
    else if Pair(s, '[') && !n.inStyle then Move(2, n.(inStyle := true), false)
    else if s[0] == ']' && n.inStyle then Move(1, n.(inStyle := false), false)
    else if Pair(s, delim) && n.depth == 0 then Move(2, n, false)
    else Move(1, n, s[0] == delim && n.depth == 0 && !n.inStyle)
  }

  /** The parts of `s`, of which `part` has been read into the current one. */
  function SplitFrom(s: string, delim: char, n: Nesting, part: string): (r: seq<string>)
    ensures r != []
    decreases |s|
  {
    if s == "" then [part]
    else
      var m := Step(s, delim, n);
      if m.cut then [part] + SplitFrom(s[1..], delim, n, "")
      else SplitFrom(s[m.taken..], delim, m.after, part + s[..m.taken])
  }

  function SplitAtDepth0(s: string, delim: char): (r: seq<string>)
    ensures r != []
  {
    SplitFrom(s, delim, TOP, "")
  }

  /** `split_at_depth0`. */
  method Split(s: string, delim: char) returns (parts: seq<string>)
    ensures parts == SplitAtDepth0(s, delim)
  {
    hide Step;
    parts := [];
    var start: nat, i: nat := 0, 0;
    var n := TOP;
    assert s[0..] == s;
    assert [] + SplitAtDepth0(s, delim) == SplitAtDepth0(s, delim);
    while i < |s|
      invariant start <= i <= |s|
      invariant SplitAtDepth0(s, delim) == parts + SplitFrom(s[i..], delim, n, s[start..i])
    {
      var m := Step(s[i..], delim, n);
      assert s[i..][m.taken..] == s[i + m.taken..];
      assert s[start..i] + s[i..][..m.taken] == s[start..i + m.taken];
      if m.cut {
        assert parts + ([s[start..i]] + SplitFrom(s[i + 1..], delim, n, ""))
            == (parts + [s[start..i]]) + SplitFrom(s[i + 1..], delim, n, "");
        parts := parts + [s[start..i]];
        start := i + 1;
        assert s[start..i + 1] == "";
      }
      n := m.after;
      i := i + m.taken;
    }
    assert s[start..i] == s[start..];
    parts := parts + [s[start..]];
  }

  lemma SplitFromUnfolds(s: string, delim: char, n: Nesting, part: string)
    requires s != ""
    ensures var m := Step(s, delim, n);
            SplitFrom(s, delim, n, part) ==
              if m.cut then [part] + SplitFrom(s[1..], delim, n, "")
              else SplitFrom(s[m.taken..], delim, m.after, part + s[..m.taken])
  {
    hide Step;
  }

  // ----- nothing is lost -----

  lemma Reglue(part: string, s: string, m: nat)
    requires m <= |s|
    ensures (part + s[..m]) + s[m..] == part + s
  {}

  lemma RejoinCut(part: string, s: string, rest: seq<string>)
    requires s != "" && rest != [] && Join(rest, [s[0]]) == s[1..]
    ensures Join([part] + rest, [s[0]]) == part + s
  {
    hide Join;
    JoinConcat([part], rest, [s[0]]);
    JoinOne(part, [s[0]]);
    assert s == [s[0]] + s[1..];
    assert part + [s[0]] + s[1..] == part + ([s[0]] + s[1..]);
  }

  lemma JoinOne(part: string, sep: string)
    ensures Join([part], sep) == part
  {}

  lemma {:induction false} SplitFromLossless(s: string, delim: char, n: Nesting, part: string)
    ensures Join(SplitFrom(s, delim, n, part), [delim]) == part + s
    decreases |s|
  {
    hide Step;
    if s == "" {
      assert part + s == part;
    } else {
      hide SplitFrom, Join;
      SplitFromUnfolds(s, delim, n, part);
      var m := Step(s, delim, n);
      if m.cut {
        SplitFromLossless(s[1..], delim, n, "");
        assert "" + s[1..] == s[1..];
        RejoinCut(part, s, SplitFrom(s[1..], delim, n, ""));
      } else {
        SplitFromLossless(s[m.taken..], delim, m.after, part + s[..m.taken]);
        Reglue(part, s, m.taken);
      }
    }
  }

  /** Rejoining the parts with the delimiter gives the text back. */
  lemma SplitLossless(s: string, delim: char)
    ensures Join(SplitAtDepth0(s, delim), [delim]) == s
  {
    SplitFromLossless(s, delim, TOP, "");
    assert "" + s == s;
  }

  // ----- parts are stable -----

  /** `w` is read from nesting `n` to nesting `end` without a cut, whatever
      follows it except a delimiter that the scanner would cut at. */
  ghost predicate ReadsThrough(w: string, delim: char, n: Nesting, end: Nesting)
    decreases |w|
  {
    if w == "" then n == end
    else
      var m := Step(w, delim, n);
      !m.cut && ReadsThrough(w[m.taken..], delim, m.after, end)
  }

  lemma {:induction false} ReadThroughIsOnePart(w: string, delim: char, n: Nesting, end: Nesting, part: string)
    requires ReadsThrough(w, delim, n, end)
    ensures SplitFrom(w, delim, n, part) == [part + w]
    decreases |w|
  {
    hide Step;
    if w == "" {
      assert part + w == part;
    } else {
      var m := Step(w, delim, n);
      ReadThroughIsOnePart(w[m.taken..], delim, m.after, end, part + w[..m.taken]);
      assert (part + w[..m.taken]) + w[m.taken..] == part + w;
    }
  }

  /** The first part of a scan: the text up to the first cut or the end, and the
      nesting it ends in. */
  function FirstCut(s: string, delim: char, n: Nesting): (r: (nat, Nesting))
    ensures r.0 <= |s|
    decreases |s|
  {
    if s == "" then (0, n)
    else
      var m := Step(s, delim, n);
      if m.cut then (0, n)
      else
        var r := FirstCut(s[m.taken..], delim, m.after);
        (m.taken + r.0, r.1)
  }

  /** Looking only at the text before the cut makes no difference: a `#` right
      before a cut would have escaped the delimiter. */
  lemma StepIgnoresCut(s: string, delim: char, n: Nesting, k: nat)
    requires s != "" && !Step(s, delim, n).cut
    requires Step(s, delim, n).taken <= k <= |s|
    requires k < |s| ==> s[k] == delim
    requires k < |s| && k == 1 ==> Step(s, delim, n).after == TOP
    ensures Step(s[..k], delim, n) == Step(s, delim, n)
  {
    assert s[..k][0] == s[0];
    if k >= 2 { assert s[..k][1] == s[1]; }
  }

  lemma {:induction false} CutIsAtTop(s: string, delim: char, n: Nesting)
    ensures var (k, end) := FirstCut(s, delim, n);
            k < |s| ==> s[k] == delim && end == TOP && Step(s[k..], delim, end).cut
    decreases |s|
  {
    hide Step;
    if s != "" {
      var m := Step(s, delim, n);
      if m.cut {
        assert s[0..] == s;
      } else {
        CutIsAtTop(s[m.taken..], delim, m.after);
        var r := FirstCut(s[m.taken..], delim, m.after);
        var rest := s[m.taken..];
        assert r.0 < |rest| ==> rest[r.0] == s[m.taken + r.0] && rest[r.0..] == s[m.taken + r.0..];
      }
    }
  }

  lemma {:induction false} FirstPartReadsThrough(s: string, delim: char, n: Nesting)
    ensures var (k, end) := FirstCut(s, delim, n);
            ReadsThrough(s[..k], delim, n, end)
    decreases |s|
  {
    hide Step;
    if s != "" {
      var m := Step(s, delim, n);
      if !m.cut {
        var rest := s[m.taken..];
        var (j, end) := FirstCut(rest, delim, m.after);
        FirstPartReadsThrough(rest, delim, m.after);
        CutIsAtTop(rest, delim, m.after);
        var k := m.taken + j;
        if k < |s| { assert rest[j] == s[k]; }
        if k == m.taken { assert j == 0; FirstCutHere(rest, delim, m.after); }
        StepIgnoresCut(s, delim, n, k);
        assert s[..k][m.taken..] == rest[..j];
      }
    }
  }

  lemma FirstCutHere(s: string, delim: char, n: Nesting)
    requires FirstCut(s, delim, n).0 == 0
    ensures FirstCut(s, delim, n).1 == n
  {
    hide Step;
  }

  lemma {:induction false} SplitFromFirst(s: string, delim: char, n: Nesting, part: string)
    ensures SplitFrom(s, delim, n, part) == CutParts(s, delim, FirstCut(s, delim, n).0, part)
    decreases |s|
  {
    hide Step;
    if s == "" {
      assert part + s[..0] == part;
    } else {
      hide SplitFrom;
      SplitFromUnfolds(s, delim, n, part);
      var m := Step(s, delim, n);
      if m.cut {
        assert part + s[..0] == part;
      } else {
        SplitFromFirst(s[m.taken..], delim, m.after, part + s[..m.taken]);
        CutPartsShift(s, delim, m.taken, FirstCut(s[m.taken..], delim, m.after).0, part);
      }
    }
  }

  /** The parts when the first one ends at `k`. */
  function CutParts(s: string, delim: char, k: nat, part: string): seq<string>
    requires k <= |s|
  {
    [part + s[..k]] + (if k < |s| then SplitFrom(s[k + 1..], delim, TOP, "") else [])
  }

  lemma CutPartsShift(s: string, delim: char, m: nat, j: nat, part: string)
    requires m <= |s| && j <= |s| - m
    ensures CutParts(s[m..], delim, j, part + s[..m]) == CutParts(s, delim, m + j, part)
  {
    hide SplitFrom;
    assert (part + s[..m]) + s[m..][..j] == part + s[..m + j];
    if m + j < |s| { assert s[m..][j + 1..] == s[m + j + 1..]; }
  }

  /** Every part splits to itself. */
  lemma {:induction false} PartsAreStable(s: string, delim: char)
    ensures forall p <- SplitAtDepth0(s, delim) :: SplitAtDepth0(p, delim) == [p]
    decreases |s|
  {
    hide Step, ReadsThrough, FirstCut, SplitFrom;
    var (k, end) := FirstCut(s, delim, TOP);
    SplitFromFirst(s, delim, TOP, "");
    FirstPartReadsThrough(s, delim, TOP);
    ReadThroughIsOnePart(s[..k], delim, TOP, end, "");
    assert "" + s[..k] == s[..k];
    if k < |s| { PartsAreStable(s[k + 1..], delim); }
  }

  // ----- what is written is what is split -----

  /** A stretch of format text: plain characters, escaped delimiters, `#{...}` and
      `#[...]`, each with what follows it. */
  datatype Piece =
    | End
    | Plain(c: char, rest: Piece)
    | Escaped(rest: Piece)
    | Braces(body: Piece, rest: Piece)
    | Style(body: Piece, rest: Piece)

  function Written(p: Piece, delim: char): string {
    match p
    case End => ""
    case Plain(c, rest) => [c] + Written(rest, delim)
    case Escaped(rest) => ['#', delim] + Written(rest, delim)
    case Braces(body, rest) => "#{" + Written(body, delim) + "}" + Written(rest, delim)
    case Style(body, rest) => "#[" + Written(body, delim) + "]" + Written(rest, delim)
  }

  /** The piece can stand `depth` braces deep, inside or outside a style: a delimiter is
      bare only inside braces or a style, a closing mark stands only where nothing is
      open, a style holds no style, and a bare `#` opens nothing and escapes nothing. */
  predicate Fits(p: Piece, delim: char, depth: nat, inStyle: bool) {
    match p
    case End => true
    case Plain(c, rest) =>
      && (c == '#' ==> var w := Written(rest, delim); w != "" && w[0] !in ['{', '[', delim])
      && (c == '}' ==> depth == 0)
      && (c == ']' ==> !inStyle)
      && (c == delim ==> depth > 0 || inStyle)
      && Fits(rest, delim, depth, inStyle)
    case Escaped(rest) => Fits(rest, delim, depth, inStyle)
    case Braces(body, rest) => Fits(body, delim, depth + 1, inStyle) && Fits(rest, delim, depth, inStyle)
    case Style(body, rest) => !inStyle && Fits(body, delim, depth, true) && Fits(rest, delim, depth, inStyle)
  }

  predicate IsDelimiter(delim: char) { delim !in ['#', '{', '}', '[', ']'] }

  /** One move that cuts nothing, over `w` at the front of the text. */
  lemma Passes(w: string, s: string, delim: char, n: Nesting, after: Nesting, part: string)
    requires w != "" && Step(w + s, delim, n) == Move(|w|, after, false)
    ensures SplitFrom(w + s, delim, n, part) == SplitFrom(s, delim, after, part + w)
  {
    hide Step;
    assert (w + s)[|w|..] == s && (w + s)[..|w|] == w;
  }

  /** A piece is read without a cut, whatever follows it. */
  lemma {:induction false} PiecePasses(p: Piece, s: string, delim: char, depth: nat, inStyle: bool, part: string)
    requires IsDelimiter(delim) && Fits(p, delim, depth, inStyle)
    ensures SplitFrom(Written(p, delim) + s, delim, Nesting(depth, inStyle), part)
         == SplitFrom(s, delim, Nesting(depth, inStyle), part + Written(p, delim))
    decreases p
  {
    hide SplitFrom;
    var n := Nesting(depth, inStyle);
    match p
    case End =>
      assert "" + s == s && part + "" == part;
    case Plain(c, rest) =>
      var tail := Written(rest, delim);
      Associate([c], tail, s);
      Associate(part, [c], tail);
      Passes([c], tail + s, delim, n, n, part);
      PiecePasses(rest, s, delim, depth, inStyle, part + [c]);
    case Escaped(rest) =>
      var tail := Written(rest, delim);
      EscapePasses(tail + s, delim, n, part);
      Associate(['#', delim], tail, s);
      Associate(part, ['#', delim], tail);
      PiecePasses(rest, s, delim, depth, inStyle, part + ['#', delim]);
    case Braces(body, rest) =>
      var inner, tail := Written(body, delim), Written(rest, delim);
      Passes("#{", inner + ("}" + (tail + s)), delim, n, Nesting(depth + 1, inStyle), part);
      PiecePasses(body, "}" + (tail + s), delim, depth + 1, inStyle, part + "#{");
      Passes("}", tail + s, delim, Nesting(depth + 1, inStyle), n, part + "#{" + inner);
      PiecePasses(rest, s, delim, depth, inStyle, part + "#{" + inner + "}");
      Enclosed("#{", inner, "}", tail, s, part);
    case Style(body, rest) =>
      var inner, tail := Written(body, delim), Written(rest, delim);
      Passes("#[", inner + ("]" + (tail + s)), delim, n, Nesting(depth, true), part);
      PiecePasses(body, "]" + (tail + s), delim, depth, true, part + "#[");
      Passes("]", tail + s, delim, Nesting(depth, true), n, part + "#[" + inner);
      PiecePasses(rest, s, delim, depth, inStyle, part + "#[" + inner + "]");
      Enclosed("#[", inner, "]", tail, s, part);
  }

  /** Inside braces the two characters are taken one at a time. */
  lemma EscapePasses(s: string, delim: char, n: Nesting, part: string)
    requires IsDelimiter(delim)
    ensures SplitFrom(['#', delim] + s, delim, n, part) == SplitFrom(s, delim, n, part + ['#', delim])
  {
    hide SplitFrom;
    if n.depth == 0 {
      Passes(['#', delim], s, delim, n, n, part);
    } else {
      Passes("#", [delim] + s, delim, n, n, part);
      Passes([delim], s, delim, n, n, part + "#");
      assert "#" + ([delim] + s) == ['#', delim] + s;
      assert part + "#" + [delim] == part + ['#', delim];
    }
  }

  lemma Enclosed(open: string, inner: string, close: string, tail: string, s: string, part: string)
    ensures (open + inner + close + tail) + s == open + (inner + (close + (tail + s)))
    ensures part + (open + inner + close + tail) == part + open + inner + close + tail
  {}

  function AllWritten(pieces: seq<Piece>, delim: char): seq<string> {
    seq(|pieces|, i requires 0 <= i < |pieces| => Written(pieces[i], delim))
  }

  /** A delimiter after a piece ends its part. */
  lemma PieceThenCut(p: Piece, s: string, delim: char)
    requires IsDelimiter(delim) && Fits(p, delim, 0, false)
    ensures SplitAtDepth0(Written(p, delim) + [delim] + s, delim) == [Written(p, delim)] + SplitAtDepth0(s, delim)
  {
    hide Written, Fits;
    var w := Written(p, delim);
    PiecePasses(p, [delim] + s, delim, 0, false, "");
    Associate(w, [delim], s);
    assert "" + w == w;
    assert ([delim] + s)[1..] == s;
    SplitFromUnfolds([delim] + s, delim, TOP, w);
  }

  lemma PieceAlone(p: Piece, delim: char)
    requires IsDelimiter(delim) && Fits(p, delim, 0, false)
    ensures SplitAtDepth0(Written(p, delim), delim) == [Written(p, delim)]
  {
    hide Written, Fits;
    PiecePasses(p, "", delim, 0, false, "");
    assert Written(p, delim) + "" == "" + Written(p, delim) == Written(p, delim);
  }

  /** Pieces joined with the delimiter are split into exactly these pieces. */
  lemma {:induction false} WrittenIsSplit(pieces: seq<Piece>, delim: char)
    requires IsDelimiter(delim) && pieces != []
    requires forall p <- pieces :: Fits(p, delim, 0, false)
    ensures SplitAtDepth0(Join(AllWritten(pieces, delim), [delim]), delim) == AllWritten(pieces, delim)
  {
    hide Written, Fits, SplitAtDepth0;
    var texts := AllWritten(pieces, delim);
    if |pieces| == 1 {
      PieceAlone(pieces[0], delim);
    } else {
      WrittenIsSplit(pieces[1..], delim);
      assert AllWritten(pieces[1..], delim) == texts[1..];
      PieceThenCut(pieces[0], Join(texts[1..], [delim]), delim);
    }
  }

  /** The comma inside the braces does not cut. */
  lemma BracesHoldTheComma()
    ensures SplitAtDepth0("#{a,b},y", ',') == ["#{a,b}", "y"]
  {
    hide SplitAtDepth0;
    var inner := Plain('a', Plain(',', Plain('b', End)));
    var y := Plain('y', End);
    assert Written(inner, ',') == "a,b" by {
      assert Written(Plain('b', End), ',') == "b";
      assert Written(Plain(',', Plain('b', End)), ',') == ",b";
    }
    assert Fits(inner, ',', 1, false);
    assert Written(Braces(inner, End), ',') == "#{a,b}";
    assert Written(y, ',') == "y";
    PieceThenCut(Braces(inner, End), "y", ',');
    PieceAlone(y, ',');
    assert "#{a,b}" + "," + "y" == "#{a,b},y";
  }

  // ----- the conditional -----

  /** `split_conditional`: condition, then-branch and else-branch. */
  function SplitConditional(s: string): (string, string, string) {
    var parts := SplitAtDepth0(s, ',');
    if |parts| == 1 then (parts[0], "", "")
    else if |parts| == 2 then (parts[0], parts[1], "")
    else (parts[0], parts[1], Join(parts[2..], ","))
  }

  /** The pieces of a conditional reassemble to its body; the condition and the
      then-branch never contain a top-level comma. */
  lemma ConditionalReassembles(s: string)
    ensures var (c, t, e) := SplitConditional(s);
            var parts := SplitAtDepth0(s, ',');
            && s == (if |parts| == 1 then c else if |parts| == 2 then c + "," + t else c + "," + t + "," + e)
            && SplitAtDepth0(c, ',') == [c]
            && (|parts| > 1 ==> SplitAtDepth0(t, ',') == [t])
  {
    hide SplitAtDepth0;
    var parts := SplitAtDepth0(s, ',');
    SplitLossless(s, ',');
    PartsAreStable(s, ',');
    if |parts| == 2 {
      assert parts[1..] == [parts[1]];
    } else if |parts| > 2 {
      JoinConcat(parts[..2], parts[2..], ",");
      assert parts == parts[..2] + parts[2..] && parts[..2] == [parts[0], parts[1]];
      assert Join([parts[0], parts[1]], ",") == parts[0] + "," + parts[1] by {
        assert [parts[0], parts[1]][1..] == [parts[1]];
      }
    }
  }

  /** A condition and a then-branch are read back as written, and everything after the
      second delimiter is the else-branch. */
  lemma ConditionalIsRead(c: Piece, t: Piece, e: string)
    requires Fits(c, ',', 0, false) && Fits(t, ',', 0, false)
    ensures SplitConditional(Written(c, ',')) == (Written(c, ','), "", "")
    ensures SplitConditional(Written(c, ',') + "," + Written(t, ',')) == (Written(c, ','), Written(t, ','), "")
    ensures SplitConditional(Written(c, ',') + "," + Written(t, ',') + "," + e) == (Written(c, ','), Written(t, ','), e)
  {
    hide Written, Fits, SplitAtDepth0;
    var cond, branch := Written(c, ','), Written(t, ',');
    PieceAlone(c, ',');
    PieceAlone(t, ',');
    PieceThenCut(c, branch, ',');
    PieceThenCut(t, e, ',');
    PieceThenCut(c, branch + "," + e, ',');
    SplitLossless(e, ',');
    assert cond + "," + branch + "," + e == cond + "," + (branch + "," + e);
    var parts := SplitAtDepth0(cond + "," + branch + "," + e, ',');
    assert parts == [cond] + ([branch] + SplitAtDepth0(e, ','));
    assert parts[2..] == SplitAtDepth0(e, ',');
  }
}
