/** The wildcard matcher with one remembered star (`format.rs`). */
module Glob {
  import opened Text

  /** What a pattern means: `?` is any one character, `*` any run of characters. */
  ghost predicate Matches(p: string, t: string)
    decreases |p| + |t|
  {
    if p == "" then t == ""
    else if p[0] == '*' then Matches(p[1..], t) || (t != "" && Matches(p, t[1..]))
    else t != "" && (p[0] == '?' || p[0] == t[0]) && Matches(p[1..], t[1..])
  }

  ghost predicate NoStar(s: string) { '*' !in s }

  predicate AllStars(s: string) { forall i :: 0 <= i < |s| ==> s[i] == '*' }

  /** Where the last star stood in the pattern, and the text position it was
      last tried at. */
  datatype Star = NoStarYet | StarAt(pi: nat, ti: nat)

  /** What the loop answers from a given state. The literal test comes first, so
      a star in the text is consumed by a star of the pattern as a literal. */
  function Scan(p: string, t: string, pi: nat, ti: nat, star: Star): bool
    requires pi <= |p| && ti <= |t|
    requires star.StarAt? ==> star.pi < pi && star.ti <= ti
    decreases if star.StarAt? then |p| - star.pi else |p| + 1,
              if star.StarAt? then |t| - star.ti else 0,
              |t| - ti
  {
    if ti == |t| then AllStars(p[pi..])
    else if pi < |p| && (p[pi] == '?' || p[pi] == t[ti]) then Scan(p, t, pi + 1, ti + 1, star)
    else if pi < |p| && p[pi] == '*' then Scan(p, t, pi + 1, ti, StarAt(pi, ti))
    else if star.StarAt? then Scan(p, t, star.pi + 1, star.ti + 1, StarAt(star.pi, star.ti + 1))
    else false
  }

  function Glob(p: string, t: string): bool { Scan(p, t, 0, 0, NoStarYet) }

  /** `glob_match_impl`. */
  method GlobMatch(pattern: string, text: string) returns (r: bool)
    ensures r == Glob(pattern, text)
    ensures r ==> Matches(pattern, text)
    ensures NoStar(text) ==> (r <==> Matches(pattern, text))
  {
    ScanIsMatch(pattern, text);
    var pi: nat, ti: nat := 0, 0;
    var star := NoStarYet;
    while ti < |text|
      invariant pi <= |pattern| && ti <= |text|
      invariant star.StarAt? ==> star.pi < pi && star.ti <= ti
      invariant Scan(pattern, text, pi, ti, star) == Glob(pattern, text)
      decreases if star.StarAt? then |pattern| - star.pi else |pattern| + 1,
                if star.StarAt? then |text| - star.ti else 0,
                |text| - ti
    {
      if pi < |pattern| && (pattern[pi] == '?' || pattern[pi] == text[ti]) {
        pi, ti := pi + 1, ti + 1;
      } else if pi < |pattern| && pattern[pi] == '*' {
        star := StarAt(pi, ti);
        pi := pi + 1;
      } else if star.StarAt? {
        star := StarAt(star.pi, star.ti + 1);
        pi, ti := star.pi + 1, star.ti;
      } else {
        return false;
      }
    }
    ghost var rest := pattern[pi..];
    while pi < |pattern| && pattern[pi] == '*'
      invariant pi <= |pattern|
      invariant AllStars(rest) == AllStars(pattern[pi..])
    {
      assert pattern[pi..][1..] == pattern[pi + 1..];
      AllStarsTail(pattern[pi..]);
      pi := pi + 1;
    }
    r := pi == |pattern|;
    assert pi < |pattern| ==> pattern[pi..][0] != '*';
  }

  lemma AllStarsTail(s: string)
    requires s != "" && s[0] == '*'
    ensures AllStars(s) == AllStars(s[1..])
  {
    if AllStars(s[1..]) {
      forall i | 0 <= i < |s| ensures s[i] == '*' {
        if i > 0 { assert s[i] == s[1..][i - 1]; }
      }
    }
  }

  lemma {:induction false} EmptyTextNeedsStars(p: string)
    ensures Matches(p, "") <==> AllStars(p)
  {
    if p != "" {
      EmptyTextNeedsStars(p[1..]);
      if p[0] == '*' { AllStarsTail(p); }
    }
  }

  /** The claim attached to a remembered star: a match that starts the star's
      run later than the position tried last. */
  ghost predicate StarPromise(p: string, t: string, star: Star)
    requires star.StarAt? ==> star.pi < |p|
  {
    star.StarAt? && star.ti < |t| && Matches(p[star.pi..], t[star.ti + 1..])
  }

  /** A scan that succeeds has found a match. */
  lemma {:induction false} Sound(p: string, t: string, pi: nat, ti: nat, star: Star)
    requires pi <= |p| && ti <= |t|
    requires star.StarAt? ==> star.pi < pi && star.ti <= ti && p[star.pi] == '*'
    requires Scan(p, t, pi, ti, star)
    ensures Matches(p[pi..], t[ti..]) || StarPromise(p, t, star)
    decreases if star.StarAt? then |p| - star.pi else |p| + 1,
              if star.StarAt? then |t| - star.ti else 0,
              |t| - ti
  {
    if ti == |t| {
      EmptyTextNeedsStars(p[pi..]);
    } else if pi < |p| && (p[pi] == '?' || p[pi] == t[ti]) {
      Sound(p, t, pi + 1, ti + 1, star);
      assert p[pi..][1..] == p[pi + 1..] && t[ti..][1..] == t[ti + 1..];
    } else if pi < |p| && p[pi] == '*' {
      Sound(p, t, pi + 1, ti, StarAt(pi, ti));
      assert p[pi..][1..] == p[pi + 1..] && t[ti..][1..] == t[ti + 1..];
    } else {
      Sound(p, t, star.pi + 1, star.ti + 1, StarAt(star.pi, star.ti + 1));
      assert p[star.pi..][1..] == p[star.pi + 1..];
      assert star.ti + 1 < |t| ==> t[star.ti + 1..][1..] == t[star.ti + 2..];
    }
  }

  /** A star-free stretch of the pattern takes one character each, so a match of
      it followed by a star carries over to the star. */
  lemma {:induction false} StretchThenStar(p: string, t: string, from: nat, end: nat, j: nat)
    requires from <= end <= |p| && j <= |t|
    requires forall i :: from <= i < end ==> p[i] != '*'
    requires Matches(p[from..], t[j..])
    ensures j + (end - from) <= |t|
    ensures Matches(p[end..], t[j + (end - from)..])
    decreases end - from
  {
    if from < end {
      assert p[from..][0] == p[from];
      assert p[from..][1..] == p[from + 1..] && t[j..][1..] == t[j + 1..];
      StretchThenStar(p, t, from + 1, end, j + 1);
    }
  }

  lemma {:induction false} StarAbsorbs(p: string, t: string, pi: nat, ti: nat, later: nat)
    requires pi < |p| && p[pi] == '*' && ti <= later <= |t|
    requires Matches(p[pi..], t[later..])
    ensures Matches(p[pi..], t[ti..])
    decreases later - ti
  {
    if ti < later {
      StarAbsorbs(p, t, pi, ti + 1, later);
      assert t[ti..][1..] == t[ti + 1..];
    }
  }

  /** A star's match starts its run somewhere. */
  lemma {:induction false} StarStarts(p: string, t: string, pi: nat, ti: nat) returns (j: nat)
    requires pi < |p| && p[pi] == '*' && ti <= |t|
    requires Matches(p[pi..], t[ti..])
    ensures ti <= j <= |t| && Matches(p[pi + 1..], t[j..])
    decreases |t| - ti
  {
    assert p[pi..][1..] == p[pi + 1..];
    if Matches(p[pi + 1..], t[ti..]) {
      j := ti;
    } else {
      assert t[ti..][1..] == t[ti + 1..];
      j := StarStarts(p, t, pi, ti + 1);
    }
  }

  /** While a star is remembered, the pattern since then has no further star and
      is as long as the text since the position tried last. */
  ghost predicate Aligned(p: string, pi: nat, ti: nat, star: Star) {
    star.StarAt? ==>
      && star.pi < pi <= |p| && p[star.pi] == '*'
      && star.ti <= ti && ti - star.ti == pi - star.pi - 1
      && forall i :: star.pi < i < pi ==> p[i] != '*'
  }

  /** On a text without a star character every match is found. */
  lemma {:induction false} Complete(p: string, t: string, pi: nat, ti: nat, star: Star)
    requires NoStar(t) && pi <= |p| && ti <= |t| && Aligned(p, pi, ti, star)
    requires Matches(p[pi..], t[ti..]) || StarPromise(p, t, star)
    ensures Scan(p, t, pi, ti, star)
    decreases if star.StarAt? then |p| - star.pi else |p| + 1,
              if star.StarAt? then |t| - star.ti else 0,
              |t| - ti
  {
    hide StarPromise;
    PromiseIs(p, t, star);
    if ti == |t| {
      if !Matches(p[pi..], t[ti..]) { PromiseReaches(p, t, pi, ti, star); }
      assert t[ti..] == "";
      EmptyTextNeedsStars(p[pi..]);
    } else if pi < |p| && (p[pi] == '?' || p[pi] == t[ti]) {
      assert t[ti] != '*';
      assert p[pi..][0] == p[pi] && p[pi..][1..] == p[pi + 1..] && t[ti..][1..] == t[ti + 1..];
      Complete(p, t, pi + 1, ti + 1, star);
    } else if pi < |p| && p[pi] == '*' {
      if !Matches(p[pi..], t[ti..]) { PromiseReaches(p, t, pi, ti, star); }
      assert p[pi..][0] == p[pi] && p[pi..][1..] == p[pi + 1..] && t[ti..][1..] == t[ti + 1..];
      PromiseIs(p, t, StarAt(pi, ti));
      Complete(p, t, pi + 1, ti, StarAt(pi, ti));
    } else {
      assert p[pi..] != "" ==> p[pi..][0] == p[pi] && t[ti..][0] == t[ti];
      var next := StarAt(star.pi, star.ti + 1);
      assert p[star.pi..][1..] == p[star.pi + 1..];
      assert star.ti + 1 < |t| ==> t[star.ti + 1..][1..] == t[star.ti + 2..];
      PromiseIs(p, t, next);
      Complete(p, t, star.pi + 1, star.ti + 1, next);
    }
  }

  lemma PromiseIs(p: string, t: string, star: Star)
    requires star.StarAt? ==> star.pi < |p|
    ensures StarPromise(p, t, star) <==> star.StarAt? && star.ti < |t| && Matches(p[star.pi..], t[star.ti + 1..])
  {}

  /** A later start of the remembered star's run pushes the rest of the pattern
      further right than it is now, which only another star can make up for. */
  lemma PromiseReaches(p: string, t: string, pi: nat, ti: nat, star: Star)
    requires pi <= |p| && ti <= |t| && Aligned(p, pi, ti, star)
    requires star.StarAt? && star.pi < |p| && StarPromise(p, t, star)
    ensures ti < |t|
    ensures pi < |p| && p[pi] == '*' ==> Matches(p[pi..], t[ti..])
  {
    var j := StarStarts(p, t, star.pi, star.ti + 1);
    StretchThenStar(p, t, star.pi + 1, pi, j);
    if pi < |p| && p[pi] == '*' {
      StarAbsorbs(p, t, pi, ti, j + (pi - star.pi - 1));
    }
  }


  /** The matcher never invents a match, and misses none in a text without stars. */
  lemma ScanIsMatch(p: string, t: string)
    ensures Glob(p, t) ==> Matches(p, t)
    ensures NoStar(t) ==> (Glob(p, t) <==> Matches(p, t))
  {
    assert p[0..] == p && t[0..] == t;
    if Glob(p, t) { Sound(p, t, 0, 0, NoStarYet); }
    if NoStar(t) && Matches(p, t) { Complete(p, t, 0, 0, NoStarYet); }
  }

  /** The pattern `*` should match everything, yet it rejects the text `*a`. */
  lemma StarRejectsStarText()
    ensures !Glob("*", "*a") && Matches("*", "*a")
  {
    assert Scan("*", "*a", 1, 1, NoStarYet) == false;
    assert Matches("", "") && "a"[1..] == "" && "*a"[1..] == "a" && "*"[1..] == "";
    assert Matches("*", "");
    assert Matches("*", "a");
  }

  /** Walking over a literal prefix consumes it on both sides. */
  lemma {:induction false} ScanLiteral(p: string, t: string, k: nat, n: nat)
    requires k <= n <= |p| && n <= |t| && p[..n] == t[..n]
    ensures Scan(p, t, k, k, NoStarYet) == Scan(p, t, n, n, NoStarYet)
    decreases n - k
  {
    if k < n {
      assert p[k] == p[..n][k] == t[..n][k] == t[k];
      ScanLiteral(p, t, k + 1, n);
    }
  }

  lemma {:induction false} LiteralMatches(t: string, p: string, rest: string)
    requires Matches(p, rest) && NoStar(t)
    ensures Matches(t + p, t + rest)
  {
    if t == "" {
      assert t + p == p && t + rest == rest;
    } else {
      LiteralMatches(t[1..], p, rest);
      assert (t + p)[1..] == t[1..] + p && (t + rest)[1..] == t[1..] + rest;
      assert (t + p)[0] == t[0] && t[0] in t;
    }
  }

  lemma {:induction false} StarMatchesAll(t: string)
    ensures Matches("*", t)
  {
    assert "*"[1..] == "" && Matches("", "");
    if t != "" { StarMatchesAll(t[1..]); }
  }

  function FirstStar(t: string): (i: nat)
    requires '*' in t
    ensures i < |t| && t[i] == '*' && '*' !in t[..i]
  {
    if t[0] == '*' then 0 else
      assert forall i :: 0 < i < |t| ==> t[i] == t[1..][i - 1];
      var k := FirstStar(t[1..]);
      assert t[..k + 1] == [t[0]] + t[1..][..k];
      k + 1
  }

  /** A text is matched correctly by every pattern exactly when it contains no
      star character. */
  lemma AgreesOnText(t: string)
    ensures (forall p :: Glob(p, t) <==> Matches(p, t)) <==> NoStar(t)
  {
    if NoStar(t) {
      forall p ensures Glob(p, t) <==> Matches(p, t) {
        ScanIsMatch(p, t);
      }
    } else {
      var p := Witness(t);
      assert Glob(p, t) != Matches(p, t);
    }
  }

  lemma StarQuestionMatchesStar()
    ensures Matches("*?", "*")
  {
    assert "*?"[1..] == "?" && "?"[1..] == "" && "*"[1..] == "";
    assert Matches("", "") && Matches("?", "*");
  }

  /** The pattern's star is spent on the text's star; nothing is left for the rest. */
  lemma ScanEndsOnLiteralStar(p: string, t: string, n: nat)
    requires n < |p| && n < |t| && p[n] == '*' && t[n] == '*'
    requires n + 1 < |t| ==> |p| == n + 1
    requires n + 1 == |t| ==> p[n + 1..] == "?"
    ensures !Scan(p, t, n, n, NoStarYet)
  {
    assert "?"[0] != '*';
    assert !Scan(p, t, n + 1, n + 1, NoStarYet);
  }

  /** For a text with a star, a pattern that means a match but is refused: the
      text up to its first star, then `*`, or `*?` when the star comes last. */
  lemma Witness(t: string) returns (p: string)
    requires '*' in t
    ensures Matches(p, t) && !Glob(p, t)
  {
    hide Scan, Matches;
    var n := FirstStar(t);
    var tail := if n + 1 < |t| then "*" else "*?";
    p := t[..n] + tail;
    assert t == t[..n] + t[n..];
    assert p[..n] == t[..n] && p[n] == '*';
    ScanLiteral(p, t, 0, n);
    if n + 1 < |t| {
      StarMatchesAll(t[n..]);
      ScanEndsOnLiteralStar(p, t, n);
    } else {
      assert t[n..] == "*";
      StarQuestionMatchesStar();
      ScanEndsOnLiteralStar(p, t, n);
    }
    LiteralMatches(t[..n], tail, t[n..]);
  }
}
