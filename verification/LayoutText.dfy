/** tmux layout strings: the two printers (`format.rs`, `control.rs`), the
    checksum, and the parser (`layout.rs`). */
module LayoutText {
  import opened Text
  import opened PaneTree

  /** A parsed layout: what a layout string says about a window. */
  datatype LayoutNode =
    | Pane(area: Rect, id: Option<Usize>)
    | Box(kind: LayoutKind, area: Rect, children: seq<LayoutNode>)

  // ----- printing -----

  function Dims(area: Rect): string {
    Decimal(area.width) + ("x" + (Decimal(area.height) + ("," + (Decimal(area.x) + ("," + Decimal(area.y))))))
  }

  function Open(kind: LayoutKind): char { if kind.Horizontal? then '{' else '[' }
  function Close(kind: LayoutKind): char { if kind.Horizontal? then '}' else ']' }

  /** The sizes a split is laid out with when the stored ones do not match. */
  function EffectiveSizes(sizes: seq<U16>, count: nat): (r: seq<U16>)
    ensures |r| == count
  {
    if |sizes| == count then sizes else seq(count, _ => 100 / Max(count, 1))
  }

  function ChildRects(split: Node, area: Rect): (r: seq<Rect>)
    requires split.Split?
    ensures |r| == |split.children|
  {
    SplitWithGaps(split.kind.Horizontal?, EffectiveSizes(split.sizes, |split.children|), area)
  }

  /** `layout_node` (`format.rs`): the layout text of a tree, as a value. */
  function Body(node: Node, area: Rect): string
    decreases node, 0
  {
    match node
    case Leaf(id) => Dims(area) + "," + Decimal(id)
    case Split(kind, sizes, children) =>
      Dims(area) + [Open(kind)] + Bodies(children, ChildRects(node, area)) + [Close(kind)]
  }

  function Bodies(nodes: seq<Node>, rects: seq<Rect>): string
    requires |nodes| == |rects|
    decreases nodes, 1
  {
    if nodes == [] then ""
    else if |nodes| == 1 then Body(nodes[0], rects[0])
    else Body(nodes[0], rects[0]) + "," + Bodies(nodes[1..], rects[1..])
  }

  /** What a tree looks like to a reader of its layout string. */
  function Describe(node: Node, area: Rect): LayoutNode
    decreases node, 0
  {
    match node
    case Leaf(id) => Pane(area, Some(id))
    case Split(kind, sizes, children) =>
      Box(kind, area, DescribeAll(children, ChildRects(node, area)))
  }

  function DescribeAll(nodes: seq<Node>, rects: seq<Rect>): (r: seq<LayoutNode>)
    requires |nodes| == |rects|
    ensures |r| == |nodes|
    decreases nodes, 1
  {
    if nodes == [] then [] else [Describe(nodes[0], rects[0])] + DescribeAll(nodes[1..], rects[1..])
  }

  /** The text of a descriptor. */
  function Print(n: LayoutNode): string
    decreases n, 0
  {
    match n
    case Pane(area, id) => Dims(area) + (if id.Some? then "," + Decimal(id.value) else "")
    case Box(kind, area, children) => Dims(area) + [Open(kind)] + PrintAll(children) + [Close(kind)]
  }

  function PrintAll(ns: seq<LayoutNode>): string
    decreases ns, 1
  {
    if ns == [] then "" else if |ns| == 1 then Print(ns[0]) else Print(ns[0]) + "," + PrintAll(ns[1..])
  }

  lemma {:induction false} BodyPrintsDescription(node: Node, area: Rect)
    ensures Body(node, area) == Print(Describe(node, area))
    decreases node, 0
  {
    if node.Split? { BodiesPrintDescriptions(node.children, ChildRects(node, area)); }
  }

  lemma {:induction false} BodiesPrintDescriptions(nodes: seq<Node>, rects: seq<Rect>)
    requires |nodes| == |rects|
    ensures Bodies(nodes, rects) == PrintAll(DescribeAll(nodes, rects))
    decreases nodes, 1
  {
    if nodes != [] {
      BodyPrintsDescription(nodes[0], rects[0]);
      BodiesPrintDescriptions(nodes[1..], rects[1..]);
      assert DescribeAll(nodes, rects)[1..] == DescribeAll(nodes[1..], rects[1..]);
    }
  }

  // ----- the accumulator printer of control.rs -----

  /** The text `append_layout_body` adds: an empty split prints its dimensions only. */
  function AppendedBody(node: Node, area: Rect): string
    decreases node, 0
  {
    match node
    case Leaf(id) => Dims(area) + "," + Decimal(id)
    case Split(kind, sizes, children) =>
      if children == [] then Dims(area)
      else Dims(area) + [Open(kind)] + AppendedBodies(children, ChildRects(node, area)) + [Close(kind)]
  }

  function AppendedBodies(nodes: seq<Node>, rects: seq<Rect>): string
    requires |nodes| == |rects|
    decreases nodes, 1
  {
    if nodes == [] then ""
    else if |nodes| == 1 then AppendedBody(nodes[0], rects[0])
    else AppendedBody(nodes[0], rects[0]) + "," + AppendedBodies(nodes[1..], rects[1..])
  }

  lemma {:induction false} AppendedBodiesSnoc(nodes: seq<Node>, rects: seq<Rect>, k: nat)
    requires |nodes| == |rects| && k < |nodes|
    ensures AppendedBodies(nodes[..k + 1], rects[..k + 1])
         == AppendedBodies(nodes[..k], rects[..k]) + (if k > 0 then "," else "") + AppendedBody(nodes[k], rects[k])
  {
    hide AppendedBody;
    if k > 0 {
      AppendedBodiesSnoc(nodes[1..], rects[1..], k - 1);
      assert nodes[..k + 1][1..] == nodes[1..][..k] && rects[..k + 1][1..] == rects[1..][..k];
      assert nodes[..k][1..] == nodes[1..][..k - 1] && rects[..k][1..] == rects[1..][..k - 1];
    }
  }

  lemma NothingAppended()
    ensures AppendedBodies([], []) == ""
  {}

  /** A split that holds an empty split: the two printers differ in its brackets, and
      what the accumulator printed is not read back as the window's layout. */
  lemma EmptySplitLosesBrackets()
    ensures var node := Split(Horizontal, [100], [Split(Vertical, [], [])]);
            var area := Rect(0, 0, 8, 2);
            && Body(node, area) == "8x2,0,0{8x2,0,0[]}" && AppendedBody(node, area) == "8x2,0,0{8x2,0,0}"
            && ParseLayoutString(ControlLayout(node, area)) != Some(Describe(node, area))
  {
    hide Dims, ParseLayoutString, ControlLayout, Describe, ChildRects, Bodies, AppendedBodies;
    var inner := Split(Vertical, [], []);
    var node := Split(Horizontal, [100], [inner]);
    var area := Rect(0, 0, 8, 2);
    DimsOf8x2();
    OnlyChild(Horizontal, inner, area);
    NothingAppended();
    assert inner.children == [] && ChildRects(inner, area) == [] && Bodies([], []) == "";
    assert "8x2,0,0" + "{" + "8x2,0,0[]" + "}" == "8x2,0,0{8x2,0,0[]}";
    assert !NoEmptySplit(inner) && inner in node.children;
    ControlLayoutRoundTrip(node, area);
  }

  lemma DimsOf8x2()
    ensures Dims(Rect(0, 0, 8, 2)) == "8x2,0,0"
  {
    assert Decimal(8) == "8" && Decimal(2) == "2" && Decimal(0) == "0";
  }

  /** A split with one child gives it the whole area, and both printers the child's text. */
  lemma OnlyChild(kind: LayoutKind, child: Node, area: Rect)
    ensures var rects := ChildRects(Split(kind, [100], [child]), area);
            && rects == [area]
            && Bodies([child], rects) == Body(child, area)
            && AppendedBodies([child], rects) == AppendedBody(child, area)
    ensures Bodies([], []) == ""
  {}

  /** `append_layout_body`: appends the layout text of a tree to `out`. */
  method AppendLayoutBody(node: Node, area: Rect, out: string) returns (r: string)
    ensures r == out + AppendedBody(node, area)
    decreases node
  {
    match node
    case Leaf(id) =>
      r := out + (Dims(area) + "," + Decimal(id));
    case Split(kind, sizes, children) =>
      if children == [] {
        r := out + Dims(area);
        return;
      }
      r := out + Dims(area) + [Open(kind)];
      r := AppendChildren(children, ChildRects(node, area), r);
      r := r + [Close(kind)];
  }

  method AppendChildren(children: seq<Node>, rects: seq<Rect>, out: string) returns (r: string)
    requires |children| == |rects|
    ensures r == out + AppendedBodies(children, rects)
    decreases children
  {
    hide AppendedBody, AppendedBodies;
    r := out;
    NothingAppended();
    for i := 0 to |children|
      invariant r == out + AppendedBodies(children[..i], rects[..i])
    {
      AppendedBodiesSnoc(children, rects, i);
      if i > 0 { r := r + ","; }
      r := AppendLayoutBody(children[i], rects[i], r);
    }
    assert children[..|children|] == children && rects[..|children|] == rects;
  }

  ghost predicate NoEmptySplit(node: Node) {
    node.Split? ==> node.children != [] && forall c <- node.children :: NoEmptySplit(c)
  }

  /** The accumulator printer drops two characters for every empty split and
      otherwise writes what the value printer writes; so the two agree exactly
      on trees without an empty split. */
  lemma {:induction false} PrintersAgree(node: Node, area: Rect)
    ensures |AppendedBody(node, area)| <= |Body(node, area)|
    ensures AppendedBody(node, area) == Body(node, area) <==> NoEmptySplit(node)
    ensures !NoEmptySplit(node) ==> |AppendedBody(node, area)| < |Body(node, area)|
    decreases node, 0
  {
    if node.Split? && node.children != [] {
      PrintersAgreeOnAll(node.children, ChildRects(node, area));
    }
  }

  lemma {:induction false} PrintersAgreeOnAll(nodes: seq<Node>, rects: seq<Rect>)
    requires |nodes| == |rects|
    ensures |AppendedBodies(nodes, rects)| <= |Bodies(nodes, rects)|
    ensures AppendedBodies(nodes, rects) == Bodies(nodes, rects) <==> forall c <- nodes :: NoEmptySplit(c)
    ensures (exists c <- nodes :: !NoEmptySplit(c)) ==> |AppendedBodies(nodes, rects)| < |Bodies(nodes, rects)|
    decreases nodes, 1
  {
    if nodes != [] {
      PrintersAgree(nodes[0], rects[0]);
      PrintersAgreeOnAll(nodes[1..], rects[1..]);
      assert forall c :: c in nodes <==> c == nodes[0] || c in nodes[1..];
    }
  }

  // ----- the checksum -----

  /** One round: rotate right by one bit, then add the byte, in 16 bits. */
  function ChecksumStep(csum: U16, b: nat): U16 {
    (csum / 2 + csum % 2 * 0x8000 + b) % 0x1_0000
  }

  function ChecksumFrom(csum: U16, s: string): U16
    decreases |s|
  {
    if s == "" then csum else ChecksumFrom(ChecksumStep(csum, s[0] as int), s[1..])
  }

  function Checksum(s: string): U16 { ChecksumFrom(0, s) }

  /** `tmux_layout_checksum` (`format.rs`) and `layout_checksum` (`control.rs`). */
  method LayoutChecksum(s: string) returns (csum: U16)
    ensures csum == Checksum(s)
  {
    csum := 0;
    for i := 0 to |s|
      invariant ChecksumFrom(csum, s[i..]) == Checksum(s)
    {
      csum := ChecksumStep(csum, s[i] as int);
    }
  }

  lemma AddDistinct(a: nat, b: nat, u: nat)
    requires a != b && a < 0x1_0000 && b < 0x1_0000
    ensures (a + u) % 0x1_0000 != (b + u) % 0x1_0000
  {}

  lemma ChecksumStepInjective(a: U16, b: U16, u: nat)
    requires a != b
    ensures ChecksumStep(a, u) != ChecksumStep(b, u)
  {
    var ra, rb := a / 2 + a % 2 * 0x8000, b / 2 + b % 2 * 0x8000;
    assert ra != rb && ra < 0x1_0000 && rb < 0x1_0000;
    AddDistinct(ra, rb, u);
  }

  lemma {:induction false} ChecksumFromInjective(a: U16, b: U16, s: string)
    requires a != b
    ensures ChecksumFrom(a, s) != ChecksumFrom(b, s)
    decreases |s|
  {
    if s != "" {
      ChecksumStepInjective(a, b, s[0] as int);
      ChecksumFromInjective(ChecksumStep(a, s[0] as int), ChecksumStep(b, s[0] as int), s[1..]);
    }
  }

  /** The checksum notices every change of a single byte. */
  lemma {:induction false} ChecksumDetectsOneByte(csum: U16, s: string, i: nat, c: char)
    requires i < |s| && c != s[i] && (c as int) < 256 && (s[i] as int) < 256
    ensures ChecksumFrom(csum, s) != ChecksumFrom(csum, s[i := c])
    decreases |s|
  {
    if i == 0 {
      assert s[0 := c][1..] == s[1..];
      ChecksumFromInjective(ChecksumStep(csum, s[0] as int), ChecksumStep(csum, c as int), s[1..]);
    } else {
      assert s[i := c][1..] == s[1..][i - 1 := c];
      ChecksumDetectsOneByte(ChecksumStep(csum, s[0] as int), s[1..], i - 1, c);
    }
  }

  /** The sixteen bits move right by one, the lowest to the top, before the byte is added. */
  lemma ChecksumRotates(high: nat, low: nat, b: nat)
    requires high < 0x8000 && low <= 1
    ensures ChecksumStep(2 * high + low, b) == (low * 0x8000 + high + b) % 0x1_0000
  {
    assert (2 * high + low) / 2 == high;
  }

  /** The bytes are taken from left to right. */
  lemma {:induction false} ChecksumAppends(csum: U16, s: string, c: char)
    ensures ChecksumFrom(csum, s + [c]) == ChecksumStep(ChecksumFrom(csum, s), c as int)
    decreases |s|
  {
    hide ChecksumStep;
    if s == "" {
      assert (s + [c])[1..] == "";
    } else {
      assert (s + [c])[1..] == s[1..] + [c];
      ChecksumAppends(ChecksumStep(csum, s[0] as int), s[1..], c);
    }
  }

  predicate IsHex(c: char) { IsDigit(c) || 'a' <= c <= 'f' || 'A' <= c <= 'F' }

  function HexChar(d: nat): (c: char)
    requires d < 16
    ensures IsHex(c)
  {
    if d < 10 then DigitChar(d) else ('a' as int + d - 10) as char
  }

  /** `{:04x}` of a 16-bit value. */
  function Hex4(n: U16): string {
    [HexChar(n / 0x1000), HexChar(n / 0x100 % 16), HexChar(n / 16 % 16), HexChar(n % 16)]
  }

  const HEX_DIGITS := "0123456789abcdef"

  /** Four hexadecimal digits, the highest first. */
  lemma Hex4Is(a: nat, b: nat, c: nat, d: nat)
    requires a < 16 && b < 16 && c < 16 && d < 16
    ensures Hex4(a * 0x1000 + b * 0x100 + c * 16 + d)
         == [HEX_DIGITS[a], HEX_DIGITS[b], HEX_DIGITS[c], HEX_DIGITS[d]]
  {
    hide HexChar, Hex4;
    var n := a * 0x1000 + b * 0x100 + c * 16 + d;
    LowDigit(a * 0x100 + b * 16 + c, d);
    LowDigit(a * 16 + b, c);
    LowDigit(a, b);
    Hex4Digits(n);
    HexCharIs(a);
    HexCharIs(b);
    HexCharIs(c);
    HexCharIs(d);
  }

  lemma LowDigit(high: nat, low: nat)
    requires low < 16
    ensures (high * 16 + low) / 16 == high && (high * 16 + low) % 16 == low
  {}

  lemma Hex4Digits(n: U16)
    ensures Hex4(n) == [HexChar(n / 16 / 16 / 16), HexChar(n / 16 / 16 % 16), HexChar(n / 16 % 16), HexChar(n % 16)]
  {
    hide HexChar;
    assert n / 0x100 == n / 16 / 16 && n / 0x1000 == n / 16 / 16 / 16;
  }

  lemma HexCharIs(d: nat)
    requires d < 16
    ensures HexChar(d) == HEX_DIGITS[d]
  {}

  /** `generate_window_layout`. */
  function WindowLayout(node: Node, area: Rect): string {
    Hex4(Checksum(Body(node, area))) + "," + Body(node, area)
  }

  /** The smallest pane, written out. */
  lemma ChecksumOfKnownText()
    ensures Checksum("1x1,0,0,0") == 0xc55d
  {
    ChecksumOfKnownStart();
    hide ChecksumFrom;
    ChecksumAppends(0, "1x1,0", ',');
    assert "1x1,0" + [','] == "1x1,0," && ChecksumFrom(0, "1x1,0,") == 0x285e;
    ChecksumAppends(0, "1x1,0,", '0');
    assert "1x1,0," + ['0'] == "1x1,0,0" && ChecksumFrom(0, "1x1,0,0") == 0x145f;
    ChecksumAppends(0, "1x1,0,0", ',');
    assert "1x1,0,0" + [','] == "1x1,0,0," && ChecksumFrom(0, "1x1,0,0,") == 0x8a5b;
    ChecksumAppends(0, "1x1,0,0,", '0');
    assert "1x1,0,0," + ['0'] == "1x1,0,0,0" && ChecksumFrom(0, "1x1,0,0,0") == 0xc55d;
  }

  lemma ChecksumOfKnownStart()
    ensures ChecksumFrom(0, "1x1,0") == 0x5064
  {
    assert ChecksumFrom(0, "") == 0;
    hide ChecksumFrom;
    ChecksumAppends(0, "", '1');
    assert "" + ['1'] == "1" && ChecksumFrom(0, "1") == 0x31;
    ChecksumAppends(0, "1", 'x');
    assert "1" + ['x'] == "1x" && ChecksumFrom(0, "1x") == 0x8090;
    ChecksumAppends(0, "1x", '1');
    assert "1x" + ['1'] == "1x1" && ChecksumFrom(0, "1x1") == 0x4079;
    ChecksumAppends(0, "1x1", ',');
    assert "1x1" + [','] == "1x1," && ChecksumFrom(0, "1x1,") == 0xa068;
    ChecksumAppends(0, "1x1,", '0');
    assert "1x1," + ['0'] == "1x1,0" && ChecksumFrom(0, "1x1,0") == 0x5064;
  }

  // ----- parsing -----

  predicate IsX(c: char) { c == 'x' }
  predicate IsComma(c: char) { c == ',' }
  predicate NotDigit(c: char) { !IsDigit(c) }
  predicate EndsId(c: char) { c == ',' || c == '{' || c == '[' || c == '}' || c == ']' }

  /** A parser's answer: a value and the number of characters it consumed. */
  datatype Parsed<+T> = NoParse | Parsed(value: T, used: nat)

  /** A number up to its separator, which is consumed with it. */
  function Field(s: string, sep: char -> bool): (r: Parsed<U16>)
    ensures r.Parsed? ==> 0 < r.used <= |s|
  {
    var end := Find(s, sep);
    if end == |s| then NoParse
    else match ParseUnsigned(s[..end], U16_MAX)
      case None => NoParse
      case Some(n) => Parsed(n, end + 1)
  }

  /** The digits at the front; no digit at all is an error. */
  function LeadingNumber(s: string): (r: Parsed<U16>)
    ensures r.Parsed? ==> r.used <= |s|
  {
    var end := Find(s, NotDigit);
    match ParseUnsigned(s[..end], U16_MAX)
    case None => NoParse
    case Some(n) => Parsed(n, end)
  }

  /** `parse_dimensions`: `WxH,X,Y`. */
  function ParseDimensions(s: string): (r: Parsed<Rect>)
    ensures r.Parsed? ==> 0 < r.used <= |s|
  {
    var w := Field(s, IsX);
    if w.NoParse? then NoParse else
    var s1 := s[w.used..];
    var h := Field(s1, IsComma);
    if h.NoParse? then NoParse else
    var s2 := s1[h.used..];
    var x := Field(s2, IsComma);
    if x.NoParse? then NoParse else
    var y := LeadingNumber(s2[x.used..]);
    if y.NoParse? then NoParse else
    Parsed(Rect(x.value, y.value, w.value, h.value), w.used + h.used + x.used + y.used)
  }

  /** A pane's id up to the next structural character; a malformed id is no id. */
  function PaneId(s: string): (r: Parsed<Option<Usize>>)
    ensures r.Parsed? && r.used <= |s|
  {
    var end := Find(s, EndsId);
    Parsed(ParseUnsigned(s[..end], USIZE_MAX), end)
  }

  /** `parse_layout_node`: a node at the front of `s`. */
  function ParseNode(s: string): (r: Parsed<LayoutNode>)
    ensures r.Parsed? ==> 0 < r.used <= |s|
    decreases |s|, 0
  {
    var dims := ParseDimensions(s);
    if dims.NoParse? then NoParse else
    var rest := s[dims.used..];
    if rest != "" && (rest[0] == '{' || rest[0] == '[') then
      var kind := if rest[0] == '{' then Horizontal else Vertical;
      var inner := ParseChildren(rest[1..], Close(kind), true);
      if inner.NoParse? then NoParse
      else Parsed(Box(kind, dims.value, inner.value), dims.used + 1 + inner.used)
    else if rest != "" && rest[0] == ',' then
      var id := PaneId(rest[1..]);
      Parsed(Pane(dims.value, id.value), dims.used + 1 + id.used)
    else
      Parsed(Pane(dims.value, None), dims.used)
  }

  /** The children up to the closing bracket; `first` says that none has been
      read, so that no separating comma is skipped. */
  function ParseChildren(s: string, closing: char, first: bool): (r: Parsed<seq<LayoutNode>>)
    ensures r.Parsed? ==> 0 < r.used <= |s|
    decreases |s|, 1
  {
    if s == "" then NoParse
    else if s[0] == closing then Parsed([], 1)
    else
      var skip := if !first && s[0] == ',' then 1 else 0;
      var child := ParseNode(s[skip..]);
      if child.NoParse? then NoParse else
      Prepend([child.value], skip + child.used, ParseChildren(s[skip + child.used..], closing, false))
  }

  function Prepend(done: seq<LayoutNode>, pos: nat, r: Parsed<seq<LayoutNode>>): Parsed<seq<LayoutNode>> {
    if r.NoParse? then NoParse else Parsed(done + r.value, pos + r.used)
  }

  lemma PrependTwice(a: seq<LayoutNode>, p: nat, b: seq<LayoutNode>, q: nat, r: Parsed<seq<LayoutNode>>)
    ensures Prepend(a, p, Prepend(b, q, r)) == Prepend(a + b, p + q, r)
  {
    if r.Parsed? { assert a + (b + r.value) == a + b + r.value; }
  }

  /** `parse_layout_children`: the loop that pushes children and moves `pos`. */
  method ParseLayoutChildren(s: string, closing: char) returns (r: Parsed<seq<LayoutNode>>)
    ensures r == ParseChildren(s, closing, true)
  {
    hide ParseNode, ParseChildren;
    ghost var whole := ParseChildren(s, closing, true);
    var children: seq<LayoutNode> := [];
    var pos := 0;
    assert s[0..] == s;
    assert whole.Parsed? ==> [] + whole.value == whole.value;
    while true
      invariant pos <= |s|
      invariant whole == Prepend(children, pos, ParseChildren(s[pos..], closing, children == []))
      decreases |s| - pos
    {
      ghost var here := s[pos..];
      ParseChildrenUnfolds(here, closing, children == []);
      if pos >= |s| { return NoParse; }
      if s[pos] == closing {
        assert children + [] == children;
        pos := pos + 1;
        break;
      }
      var skip := if children != [] && s[pos] == ',' then 1 else 0;
      assert s[pos + skip..] == here[skip..];
      var child := ParseNode(s[pos + skip..]);
      if child.NoParse? { return NoParse; }
      assert s[pos + skip + child.used..] == here[skip + child.used..];
      PrependTwice(children, pos, [child.value], skip + child.used,
                   ParseChildren(here[skip + child.used..], closing, false));
      children := children + [child.value];
      pos := pos + skip + child.used;
    }
    r := Parsed(children, pos);
  }

  lemma ParseChildrenUnfolds(s: string, closing: char, first: bool)
    ensures s == "" ==> ParseChildren(s, closing, first) == NoParse
    ensures s != "" && s[0] == closing ==> ParseChildren(s, closing, first) == Parsed([], 1)
    ensures s != "" && s[0] != closing ==>
              var skip := if !first && s[0] == ',' then 1 else 0;
              var child := ParseNode(s[skip..]);
              ParseChildren(s, closing, first) ==
                if child.NoParse? then NoParse
                else Prepend([child.value], skip + child.used, ParseChildren(s[skip + child.used..], closing, false))
  {
    hide ParseNode;
  }

  /** `parse_layout_string`: the checksum prefix is checked for shape and skipped. */
  function ParseLayoutString(text: string): Option<LayoutNode> {
    var s := Trim(text);
    if |s| < 5 || s[4] != ',' then None
    else if !(IsHex(s[0]) && IsHex(s[1]) && IsHex(s[2]) && IsHex(s[3])) then None
    else
      match ParseNode(s[5..])
      case NoParse => None
      case Parsed(node, _) => Some(node)
  }

  // ----- round trip -----

  lemma FieldParses(n: U16, sep: char, rest: string, stop: char -> bool)
    requires stop(sep) && forall c :: IsDigit(c) ==> !stop(c)
    ensures Field(Decimal(n) + ([sep] + rest), stop) == Parsed(n, |Decimal(n)| + 1)
    ensures (Decimal(n) + ([sep] + rest))[|Decimal(n)| + 1..] == rest
  {
    FindAfter(Decimal(n), [sep] + rest, stop);
    assert (Decimal(n) + ([sep] + rest))[..|Decimal(n)|] == Decimal(n);
    ParsePrinted(n, U16_MAX);
  }

  lemma LeadingNumberParses(n: U16, rest: string)
    requires rest == "" || !IsDigit(rest[0])
    ensures LeadingNumber(Decimal(n) + rest) == Parsed(n, |Decimal(n)|)
  {
    FindAfter(Decimal(n), rest, NotDigit);
    assert (Decimal(n) + rest)[..|Decimal(n)|] == Decimal(n);
    ParsePrinted(n, U16_MAX);
  }

  lemma Glue(a: string, sep: string, b: string, rest: string)
    ensures (a + (sep + b)) + rest == a + (sep + (b + rest))
  {}

  lemma DimsInSteps(s1: string, s2: string, s3: string, s4: string, area: Rect, w: nat, h: nat, x: nat, y: nat)
    requires Field(s1, IsX) == Parsed(area.width, w) && s1[w..] == s2
    requires Field(s2, IsComma) == Parsed(area.height, h) && s2[h..] == s3
    requires Field(s3, IsComma) == Parsed(area.x, x) && s3[x..] == s4
    requires LeadingNumber(s4) == Parsed(area.y, y)
    ensures ParseDimensions(s1) == Parsed(area, w + h + x + y)
  {
    hide Field, LeadingNumber;
  }

  lemma DimsParse(area: Rect, rest: string)
    requires rest == "" || !IsDigit(rest[0])
    ensures ParseDimensions(Dims(area) + rest) == Parsed(area, |Dims(area)|)
  {
    hide Field, LeadingNumber, Decimal, ParseDimensions;
    var d4 := Decimal(area.y);
    var d3 := Decimal(area.x) + ("," + d4);
    var d2 := Decimal(area.height) + ("," + d3);
    Glue(Decimal(area.x), ",", d4, rest);
    Glue(Decimal(area.height), ",", d3, rest);
    Glue(Decimal(area.width), "x", d2, rest);
    var s4, s3, s2, s1 := d4 + rest, d3 + rest, d2 + rest, Dims(area) + rest;
    FieldParses(area.width, 'x', s2, IsX);
    FieldParses(area.height, ',', s3, IsComma);
    FieldParses(area.x, ',', s4, IsComma);
    LeadingNumberParses(area.y, rest);
    DimsInSteps(s1, s2, s3, s4, area, |Decimal(area.width)| + 1, |Decimal(area.height)| + 1,
                |Decimal(area.x)| + 1, |Decimal(area.y)|);
  }

  /** A pane's id ends at a comma, at any bracket or at the end. */
  lemma PaneIdParses(id: Usize, rest: string)
    requires rest == "" || rest[0] in [',', '{', '[', '}', ']']
    ensures PaneId(Decimal(id) + rest) == Parsed(Some(id), |Decimal(id)|)
  {
    FindAfter(Decimal(id), rest, EndsId);
    assert (Decimal(id) + rest)[..|Decimal(id)|] == Decimal(id);
    ParsePrinted(id, USIZE_MAX);
  }

  ghost predicate HasIds(n: LayoutNode) {
    match n
    case Pane(_, id) => id.Some?
    case Box(_, _, children) => forall c <- children :: HasIds(c)
  }

  /** What may follow a printed node: the end, a separator or a closing bracket. */
  predicate Follows(rest: string) {
    rest == "" || rest[0] == ',' || rest[0] == '}' || rest[0] == ']'
  }

  lemma {:induction false} PrintStartsWithDigit(n: LayoutNode)
    ensures Print(n) != "" && IsDigit(Print(n)[0])
  {
    assert Dims(n.area) <= Print(n);
    assert Dims(n.area)[0] == Decimal(n.area.width)[0];
  }

  lemma PaneParses(s: string, dims: Parsed<Rect>, id: Parsed<Option<Usize>>)
    requires ParseDimensions(s) == dims && dims.Parsed?
    requires dims.used < |s| && s[dims.used] == ','
    requires PaneId(s[dims.used..][1..]) == id
    ensures ParseNode(s) == Parsed(Pane(dims.value, id.value), dims.used + 1 + id.used)
  {
    hide ParseDimensions, PaneId;
  }

  lemma BoxParses(s: string, dims: Parsed<Rect>, kind: LayoutKind, inner: Parsed<seq<LayoutNode>>)
    requires ParseDimensions(s) == dims && dims.Parsed?
    requires dims.used < |s| && s[dims.used] == Open(kind)
    requires ParseChildren(s[dims.used..][1..], Close(kind), true) == inner && inner.Parsed?
    ensures ParseNode(s) == Parsed(Box(kind, dims.value, inner.value), dims.used + 1 + inner.used)
  {
    hide ParseDimensions, PaneId;
  }

  lemma ChildParses(text: string, tail: string, closing: char, first: bool, node: LayoutNode)
    requires text != "" && IsDigit(text[0])
    requires closing == '}' || closing == ']'
    requires ParseNode(text + tail) == Parsed(node, |text|)
    ensures var comma := if first then "" else ",";
            ParseChildren(comma + (text + tail), closing, first)
            == Prepend([node], |comma| + |text|, ParseChildren(tail, closing, false))
  {
    hide ParseNode, ParseChildren;
    var comma := if first then "" else ",";
    var s := comma + (text + tail);
    ParseChildrenUnfolds(s, closing, first);
    assert s[|comma|..] == text + tail;
    assert s[|comma| + |text|..] == tail;
  }

  /** Parsing the text of a descriptor gives back the descriptor and consumes
      exactly that text, whatever comes after it. */
  lemma {:induction false} NodeRoundTrip(n: LayoutNode, rest: string)
    requires HasIds(n) && Follows(rest)
    ensures ParseNode(Print(n) + rest) == Parsed(n, |Print(n)|)
    decreases n, 0
  {
    hide ParseNode, ParseChildren, ParseDimensions, PaneId, Decimal, Dims;
    var dims := Dims(n.area);
    var s := Print(n) + rest;
    if n.Pane? {
      var idText := Decimal(n.id.value);
      var after := "," + (idText + rest);
      assert s == dims + after;
      DimsParse(n.area, after);
      assert s[|dims|..] == after && after[1..] == idText + rest;
      PaneIdParses(n.id.value, rest);
      PaneParses(s, Parsed(n.area, |dims|), Parsed(n.id, |idText|));
    } else {
      var inner := PrintAll(n.children) + ([Close(n.kind)] + rest);
      var after := [Open(n.kind)] + inner;
      assert s == dims + after;
      DimsParse(n.area, after);
      assert s[|dims|..] == after && after[1..] == inner;
      ChildrenRoundTrip(n.children, Close(n.kind), rest, true);
      assert Listed(n.children, true) == PrintAll(n.children);
      BoxParses(s, Parsed(n.area, |dims|), n.kind, Parsed(n.children, |PrintAll(n.children)| + 1));
    }
  }

  /** What a list of children prints as, after another child or as the first. */
  function Listed(ns: seq<LayoutNode>, first: bool): string {
    (if first || ns == [] then "" else ",") + PrintAll(ns)
  }

  lemma ListedSplits(ns: seq<LayoutNode>, first: bool, rest: string)
    requires ns != []
    ensures var comma := if first then "" else ",";
            Listed(ns, first) + rest == comma + (Print(ns[0]) + (Listed(ns[1..], false) + rest))
    ensures |Listed(ns, first)| == (if first then 0 else 1) + |Print(ns[0])| + |Listed(ns[1..], false)|
  {
    hide Print;
    assert PrintAll(ns) == Print(ns[0]) + Listed(ns[1..], false);
  }

  lemma {:induction false} ChildrenRoundTrip(ns: seq<LayoutNode>, closing: char, rest: string, first: bool)
    requires forall c <- ns :: HasIds(c)
    requires closing == '}' || closing == ']'
    ensures ParseChildren(Listed(ns, first) + ([closing] + rest), closing, first) == Parsed(ns, |Listed(ns, first)| + 1)
    decreases ns, 1
  {
    hide ParseNode, Print;
    if ns == [] {
      assert ParseChildren([closing] + rest, closing, first) == Parsed([], 1);
      assert Listed(ns, first) == "" && "" + ([closing] + rest) == [closing] + rest;
    } else {
      hide ParseChildren;
      var tail := Listed(ns[1..], false) + ([closing] + rest);
      assert tail[0] == if ns[1..] == [] then closing else ',';
      PrintStartsWithDigit(ns[0]);
      NodeRoundTrip(ns[0], tail);
      ChildrenRoundTrip(ns[1..], closing, rest, false);
      ChildParses(Print(ns[0]), tail, closing, first, ns[0]);
      ListedSplits(ns, first, [closing] + rest);
      assert [ns[0]] + ns[1..] == ns;
    }
  }

  lemma {:induction false} DescriptionHasIds(node: Node, area: Rect)
    ensures HasIds(Describe(node, area))
    decreases node, 0
  {
    if node.Split? { DescriptionsHaveIds(node.children, ChildRects(node, area)); }
  }

  lemma {:induction false} DescriptionsHaveIds(nodes: seq<Node>, rects: seq<Rect>)
    requires |nodes| == |rects|
    ensures forall c <- DescribeAll(nodes, rects) :: HasIds(c)
    decreases nodes, 1
  {
    if nodes != [] {
      DescriptionHasIds(nodes[0], rects[0]);
      DescriptionsHaveIds(nodes[1..], rects[1..]);
    }
  }

  lemma LastCharIsPrinted(n: LayoutNode)
    requires HasIds(n)
    ensures Print(n) != "" && !IsSpace(Print(n)[|Print(n)| - 1])
  {
    if n.Pane? {
      var d := Decimal(n.id.value);
      assert Print(n)[|Print(n)| - 1] == d[|d| - 1];
      assert IsDigit(d[|d| - 1]);
    }
  }

  lemma PrefixIsSkipped(csum: U16, body: string)
    requires body != "" && !IsSpace(body[|body| - 1])
    ensures ParseLayoutString(Hex4(csum) + "," + body)
         == (var r := ParseNode(body); if r.NoParse? then None else Some(r.value))
  {
    var s := Hex4(csum) + "," + body;
    assert s[|s| - 1] == body[|body| - 1];
    TrimKeeps("", s, "");
    assert "" + s + "" == s;
    assert s[5..] == body;
  }

  /** A layout string begins with four hexadecimal digits, in either case, and a comma,
      blanks around it or not; without them it is not read. */
  lemma PrefixExactlyWhen(left: string, s: string, right: string)
    requires s != "" && !IsSpace(s[0]) && !IsSpace(s[|s| - 1])
    requires (forall i :: 0 <= i < |left| ==> IsSpace(left[i])) && forall i :: 0 <= i < |right| ==> IsSpace(right[i])
    ensures var hex := "0123456789abcdefABCDEF";
            var prefixed := |s| >= 5 && s[0] in hex && s[1] in hex && s[2] in hex && s[3] in hex && s[4] == ',';
            ParseLayoutString(left + s + right)
            == if prefixed && ParseNode(s[5..]).Parsed? then Some(ParseNode(s[5..]).value) else None
  {
    hide ParseNode, IsHex, Trim;
    TrimKeeps(left, s, right);
    if |s| >= 5 {
      HexIs(s[0]);
      HexIs(s[1]);
      HexIs(s[2]);
      HexIs(s[3]);
    }
  }

  lemma HexIs(c: char)
    ensures IsHex(c) <==> c in "0123456789abcdefABCDEF"
  {
    if IsHex(c) {
      var i := if IsDigit(c) then c as int - '0' as int
               else if 'a' <= c <= 'f' then c as int - 'a' as int + 10 else c as int - 'A' as int + 16;
      assert "0123456789abcdefABCDEF"[i] == c;
    }
  }

  /** A window's layout string reads back as exactly the layout of the window. */
  lemma WindowLayoutRoundTrip(node: Node, area: Rect)
    ensures ParseLayoutString(WindowLayout(node, area)) == Some(Describe(node, area))
  {
    hide ParseNode, Print, Body, Describe, ParseLayoutString, Checksum;
    BodyPrintsDescription(node, area);
    DescriptionHasIds(node, area);
    LastCharIsPrinted(Describe(node, area));
    NodeRoundTrip(Describe(node, area), "");
    assert Body(node, area) + "" == Body(node, area);
    PrefixIsSkipped(Checksum(Body(node, area)), Body(node, area));
  }

  // ----- reading back what control.rs prints -----

  /** `window_layout_string` (`control.rs`). */
  function ControlLayout(node: Node, area: Rect): string {
    Hex4(Checksum(AppendedBody(node, area))) + "," + AppendedBody(node, area)
  }

  function AppendedList(nodes: seq<Node>, rects: seq<Rect>, first: bool): string
    requires |nodes| == |rects|
  {
    (if first || nodes == [] then "" else ",") + AppendedBodies(nodes, rects)
  }

  lemma AppendedListSplits(nodes: seq<Node>, rects: seq<Rect>, first: bool, rest: string)
    requires |nodes| == |rects| && nodes != []
    ensures var comma := if first then "" else ",";
            AppendedList(nodes, rects, first) + rest
            == comma + (AppendedBody(nodes[0], rects[0]) + (AppendedList(nodes[1..], rects[1..], false) + rest))
  {
    hide AppendedBody;
    assert AppendedBodies(nodes, rects)
        == AppendedBody(nodes[0], rects[0]) + AppendedList(nodes[1..], rects[1..], false);
  }

  lemma AppendedBodyEnds(node: Node, area: Rect)
    ensures var t := AppendedBody(node, area);
            t != "" && IsDigit(t[0]) && !IsSpace(t[|t| - 1])
  {
    var t := AppendedBody(node, area);
    assert Dims(area) <= t && Dims(area)[0] == Decimal(area.width)[0];
    var last := if node.Leaf? then Decimal(node.id) else Decimal(area.y);
    if node.Leaf? || node.children == [] {
      assert t[|t| - 1] == last[|last| - 1];
      assert IsDigit(last[|last| - 1]);
    }
  }

  lemma EmptySplitReadsAsPane(area: Rect, rest: string)
    requires Follows(rest)
    ensures ParseNode(Dims(area) + rest).Parsed? && ParseNode(Dims(area) + rest).value.Pane?
  {
    hide ParseDimensions, PaneId, ParseChildren;
    DimsParse(area, rest);
    assert (Dims(area) + rest)[|Dims(area)|..] == rest;
  }

  /** Wherever a tree has an empty split, the reader of its accumulator text
      does not see the tree. */
  lemma {:induction false} EmptySplitMisread(node: Node, area: Rect, rest: string)
    requires !NoEmptySplit(node) && Follows(rest)
    ensures var r := ParseNode(AppendedBody(node, area) + rest);
            r.Parsed? ==> r.value != Describe(node, area)
    decreases node, 0
  {
    hide ParseNode, ParseChildren, Dims;
    if node.children == [] {
      EmptySplitReadsAsPane(area, rest);
    } else {
      var rects := ChildRects(node, area);
      var inner := AppendedBodies(node.children, rects) + ([Close(node.kind)] + rest);
      var after := [Open(node.kind)] + inner;
      var s := AppendedBody(node, area) + rest;
      assert s == Dims(area) + after;
      DimsParse(area, after);
      assert s[|Dims(area)|..] == after && after[1..] == inner;
      EmptySplitMisreadAmong(node.children, rects, Close(node.kind), rest, true);
      assert AppendedList(node.children, rects, true) == AppendedBodies(node.children, rects);
      BoxReads(s, Parsed(area, |Dims(area)|), node.kind);
    }
  }

  lemma BoxReads(s: string, dims: Parsed<Rect>, kind: LayoutKind)
    requires ParseDimensions(s) == dims && dims.Parsed?
    requires dims.used < |s| && s[dims.used] == Open(kind)
    ensures var inner := ParseChildren(s[dims.used..][1..], Close(kind), true);
            var r := ParseNode(s);
            (r.Parsed? <==> inner.Parsed?) && (r.Parsed? ==> r.value == Box(kind, dims.value, inner.value))
  {
    hide ParseDimensions, PaneId, ParseChildren;
  }

  lemma {:induction false} EmptySplitMisreadAmong(nodes: seq<Node>, rects: seq<Rect>, closing: char, rest: string,
                                                  first: bool)
    requires |nodes| == |rects| && exists c <- nodes :: !NoEmptySplit(c)
    requires closing == '}' || closing == ']'
    ensures var r := ParseChildren(AppendedList(nodes, rects, first) + ([closing] + rest), closing, first);
            r.Parsed? ==> r.value != DescribeAll(nodes, rects)
    decreases nodes, 1
  {
    hide ParseNode, ParseChildren, Describe, AppendedBody;
    var text := AppendedBody(nodes[0], rects[0]);
    var tail := AppendedList(nodes[1..], rects[1..], false) + ([closing] + rest);
    assert tail[0] == if nodes[1..] == [] then closing else ',';
    AppendedListSplits(nodes, rects, first, [closing] + rest);
    AppendedBodyEnds(nodes[0], rects[0]);
    if NoEmptySplit(nodes[0]) {
      PrintersAgree(nodes[0], rects[0]);
      BodyPrintsDescription(nodes[0], rects[0]);
      DescriptionHasIds(nodes[0], rects[0]);
      NodeRoundTrip(Describe(nodes[0], rects[0]), tail);
      ChildParses(text, tail, closing, first, Describe(nodes[0], rects[0]));
      EmptySplitMisreadAmong(nodes[1..], rects[1..], closing, rest, false);
      assert DescribeAll(nodes, rects)[1..] == DescribeAll(nodes[1..], rects[1..]);
    } else {
      EmptySplitMisread(nodes[0], rects[0], tail);
      FirstChildRead(text, tail, closing, first);
    }
  }

  lemma FirstChildRead(text: string, tail: string, closing: char, first: bool)
    requires text != "" && IsDigit(text[0])
    requires closing == '}' || closing == ']'
    ensures var r := ParseChildren((if first then "" else ",") + (text + tail), closing, first);
            r.Parsed? ==> ParseNode(text + tail).Parsed? && r.value != [] && r.value[0] == ParseNode(text + tail).value
  {
    hide ParseNode, ParseChildren;
    var comma := if first then "" else ",";
    var s := comma + (text + tail);
    ParseChildrenUnfolds(s, closing, first);
    assert s[|comma|..] == text + tail;
  }

  /** Reading back what `control.rs` printed gives the layout of the window
      exactly when no split of the tree is empty. */
  lemma ControlLayoutRoundTrip(node: Node, area: Rect)
    ensures ParseLayoutString(ControlLayout(node, area)) == Some(Describe(node, area)) <==> NoEmptySplit(node)
  {
    if NoEmptySplit(node) {
      PrintersAgree(node, area);
      WindowLayoutRoundTrip(node, area);
    } else {
      EmptySplitMisread(node, area, "");
      AppendedBodyEnds(node, area);
      assert AppendedBody(node, area) + "" == AppendedBody(node, area);
      PrefixIsSkipped(Checksum(AppendedBody(node, area)), AppendedBody(node, area));
    }
  }
}
