/** Text shared by the models: optional values, decimal numerals as Rust prints
    and parses them, searching, trimming and joining. */
module Text {

  datatype Option<+T> = None | Some(value: T)

  type U16 = n: nat | n < 0x1_0000
  type Usize = n: nat | n < 0x1_0000_0000_0000_0000

  const U16_MAX: nat := 0xFFFF
  const USIZE_MAX: nat := 0xFFFF_FFFF_FFFF_FFFF

  function Min(a: int, b: int): int { if a <= b then a else b }
  function Max(a: int, b: int): int { if a >= b then a else b }

  /** `a.saturating_sub(b)` on an unsigned type. */
  function SatSub(a: nat, b: nat): nat { if a < b then 0 else a - b }

  lemma Associate<T>(a: seq<T>, b: seq<T>, c: seq<T>)
    ensures (a + b) + c == a + (b + c)
  {}

  lemma SameHeads<T>(a: seq<T>, b: seq<T>, s: seq<T>, t: seq<T>)
    requires |a| == |b|
    ensures a + s == b + t <==> a == b && s == t
  {
    if a + s == b + t {
      assert a == (a + s)[..|a|] && b == (b + t)[..|b|];
      assert s == (a + s)[|a|..] && t == (b + t)[|b|..];
    }
  }

  // ----- decimal numerals -----

  predicate IsDigit(c: char) { '0' <= c <= '9' }

  predicate AllDigits(s: string) { forall i :: 0 <= i < |s| ==> IsDigit(s[i]) }

  function DigitChar(d: nat): (c: char)
    requires d < 10
    ensures IsDigit(c)
  {
    ('0' as int + d) as char
  }

  function Decimal(n: nat): (s: string)
    ensures s != [] && AllDigits(s)
  {
    if n < 10 then [DigitChar(n)] else Decimal(n / 10) + [DigitChar(n % 10)]
  }

  function DigitsValue(s: string): nat
    requires AllDigits(s)
  {
    if s == [] then 0 else DigitsValue(s[..|s| - 1]) * 10 + (s[|s| - 1] as int - '0' as int)
  }

  /** `str::parse` for an unsigned type whose largest value is `max`: an optional
      plus sign, then one or more digits, and the value must fit. */
  function ParseUnsigned(s: string, max: nat): Option<nat> {
    var d := if |s| > 1 && s[0] == '+' then s[1..] else s;
    if d == [] || !AllDigits(d) || DigitsValue(d) > max then None else Some(DigitsValue(d))
  }

  lemma {:induction false} DecimalValue(n: nat)
    ensures DigitsValue(Decimal(n)) == n
  {
    if n >= 10 {
      DecimalValue(n / 10);
      var s := Decimal(n);
      assert s[..|s| - 1] == Decimal(n / 10);
    }
  }

  lemma ParsePrinted(n: nat, max: nat)
    requires n <= max
    ensures ParseUnsigned(Decimal(n), max) == Some(n)
  {
    DecimalValue(n);
    assert IsDigit(Decimal(n)[0]);
  }

  /** A plus sign may stand before the digits, and a number that is too large is refused. */
  lemma ParseReads(n: nat, max: nat)
    ensures ParseUnsigned(Decimal(n), max) == ParseUnsigned("+" + Decimal(n), max) == if n <= max then Some(n) else None
  {
    DecimalValue(n);
    assert IsDigit(Decimal(n)[0]);
    assert ("+" + Decimal(n))[1..] == Decimal(n);
  }

  /** So are a text without a digit and one with another character past the first. */
  lemma ParseRefuses(s: string, i: nat, max: nat)
    ensures ParseUnsigned("", max) == ParseUnsigned("+", max) == None
    ensures i < |s| && !('0' <= s[i] <= '9') && (i > 0 || s[0] != '+') ==> ParseUnsigned(s, max) == None
  {
    assert !IsDigit('+') && "+"[0] == '+';
    if i < |s| && !('0' <= s[i] <= '9') && |s| > 1 && s[0] == '+' && i > 0 {
      assert s[1..][i - 1] == s[i];
    }
  }

  // ----- searching -----

  /** Index of the first character that satisfies `stop`, or the length. */
  function Find(s: string, stop: char -> bool): (i: nat)
    ensures i <= |s|
    ensures forall j :: 0 <= j < i ==> !stop(s[j])
    ensures i < |s| ==> stop(s[i])
  {
    if s == [] || stop(s[0]) then 0 else 1 + Find(s[1..], stop)
  }

  lemma {:induction false} FindAfter(a: string, b: string, stop: char -> bool)
    requires forall j :: 0 <= j < |a| ==> !stop(a[j])
    requires b == [] || stop(b[0])
    ensures Find(a + b, stop) == |a|
  {
    if a == [] {
      assert a + b == b;
    } else {
      FindAfter(a[1..], b, stop);
      assert (a + b)[1..] == a[1..] + b;
    }
  }

  // ----- white space -----

  /** The ASCII part of `char::is_whitespace`. */
  predicate IsSpace(c: char) { c == ' ' || '\t' <= c <= '\r' }

  /** `trim_start_matches` and `trim_end_matches` for a class of characters. */
  function TrimStart(s: string, p: char -> bool): string {
    if s != [] && p(s[0]) then TrimStart(s[1..], p) else s
  }

  function TrimEnd(s: string, p: char -> bool): string {
    if s != [] && p(s[|s| - 1]) then TrimEnd(s[..|s| - 1], p) else s
  }

  function TrimBy(s: string, p: char -> bool): string { TrimEnd(TrimStart(s, p), p) }

  function Trim(s: string): string { TrimBy(s, IsSpace) }
  function TrimRight(s: string): string { TrimEnd(s, IsSpace) }

  lemma {:induction false} TrimStartSkips(left: string, s: string, p: char -> bool)
    requires forall i :: 0 <= i < |left| ==> p(left[i])
    requires s == [] || !p(s[0])
    ensures TrimStart(left + s, p) == s
  {
    if left == [] {
      assert left + s == s;
    } else {
      assert (left + s)[1..] == left[1..] + s;
      TrimStartSkips(left[1..], s, p);
    }
  }

  lemma {:induction false} TrimEndSkips(s: string, right: string, p: char -> bool)
    requires forall i :: 0 <= i < |right| ==> p(right[i])
    requires s == [] || !p(s[|s| - 1])
    ensures TrimEnd(s + right, p) == s
  {
    if right == [] {
      assert s + right == s;
    } else {
      assert (s + right)[..|s + right| - 1] == s + right[..|right| - 1];
      TrimEndSkips(s, right[..|right| - 1], p);
    }
  }

  lemma TrimByKeeps(left: string, s: string, right: string, p: char -> bool)
    requires s != [] && !p(s[0]) && !p(s[|s| - 1])
    requires forall i :: 0 <= i < |left| ==> p(left[i])
    requires forall i :: 0 <= i < |right| ==> p(right[i])
    ensures TrimBy(left + s + right, p) == s
  {
    assert left + s + right == left + (s + right);
    TrimStartSkips(left, s + right, p);
    TrimEndSkips(s, right, p);
  }

  lemma TrimKeeps(left: string, s: string, right: string)
    requires s != [] && !IsSpace(s[0]) && !IsSpace(s[|s| - 1])
    requires forall i :: 0 <= i < |left| ==> IsSpace(left[i])
    requires forall i :: 0 <= i < |right| ==> IsSpace(right[i])
    ensures Trim(left + s + right) == s
  {
    TrimByKeeps(left, s, right, IsSpace);
  }

  lemma {:induction false} TrimStartStarts(s: string, p: char -> bool)
    ensures TrimStart(s, p) == [] || !p(TrimStart(s, p)[0])
  {
    if s != [] && p(s[0]) { TrimStartStarts(s[1..], p); }
  }

  lemma {:induction false} TrimEndIsPrefix(s: string, p: char -> bool)
    ensures TrimEnd(s, p) <= s
  {
    if s != [] && p(s[|s| - 1]) { TrimEndIsPrefix(s[..|s| - 1], p); }
  }

  lemma SpacesAre(c: char)
    ensures IsSpace(c) <==> c == ' ' || c == '\t' || c == '\n' || c as int == 11 || c as int == 12 || c == '\r'
  {}

  /** Trimming drops exactly the white space at the end. */
  lemma {:induction false} TrimRightIs(s: string)
    ensures var t := TrimRight(s);
            && t <= s && (t != "" ==> !IsSpace(t[|t| - 1]))
            && forall i :: |t| <= i < |s| ==> IsSpace(s[i])
  {
    if s != "" && IsSpace(s[|s| - 1]) { TrimRightIs(s[..|s| - 1]); }
  }

  // ----- joining -----

  function Join(parts: seq<string>, sep: string): string {
    if |parts| == 0 then "" else if |parts| == 1 then parts[0]
    else parts[0] + sep + Join(parts[1..], sep)
  }

  lemma {:induction false} JoinConcat(a: seq<string>, b: seq<string>, sep: string)
    requires a != [] && b != []
    ensures Join(a + b, sep) == Join(a, sep) + sep + Join(b, sep)
  {
    assert (a + b)[1..] == a[1..] + b;
    if |a| > 1 {
      JoinConcat(a[1..], b, sep);
    } else {
      assert (a + b)[1..] == b;
    }
  }
}
