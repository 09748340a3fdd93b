/** The scanner that rejects a value-taking flag without a value (`cli.rs`). */
module Flags {
  import opened Text

  datatype FlagValue = NoValue | Required | Optional

  predicate IsAlpha(c: char) { 'a' <= c <= 'z' || 'A' <= c <= 'Z' }
  predicate IsAlphanumeric(c: char) { IsDigit(c) || IsAlpha(c) }

  // ----- templates -----

  /** The colons right after position `i` say how the letter there takes a value. */
  function KindAt(template: string, i: nat): FlagValue
    requires i < |template|
  {
    if i + 1 < |template| && template[i + 1] == ':' then
      (if i + 2 < |template| && template[i + 2] == ':' then Optional else Required)
    else NoValue
  }

  /** The kind of the first occurrence of a letter in a template. */
  function KindIn(template: string, flag: char): FlagValue {
    if template == "" || !IsAlphanumeric(flag) then NoValue
    else if template[0] == flag then KindAt(template, 0)
    else KindIn(template[1..], flag)
  }

  /** `flag_value_kind`. */
  method FlagValueKind(template: string, flag: char) returns (r: FlagValue)
    ensures r == KindIn(template, flag)
  {
    if !IsAlphanumeric(flag) { return NoValue; }
    var i := 0;
    assert template[0..] == template;
    while i < |template|
      invariant i <= |template|
      invariant KindIn(template[i..], flag) == KindIn(template, flag)
    {
      ghost var here := template[i..];
      assert here[0] == template[i] && here[1..] == template[i + 1..];
      assert i + 1 < |template| ==> here[1] == template[i + 1];
      assert i + 2 < |template| ==> here[2] == template[i + 2];
      if template[i] == flag {
        if i + 1 < |template| && template[i + 1] == ':' {
          if i + 2 < |template| && template[i + 2] == ':' { return Optional; }
          return Required;
        }
        return NoValue;
      }
      i := i + 1;
    }
    r := NoValue;
  }

  /** One flag a command declares. */
  datatype FlagSpec = FlagSpec(letter: char, kind: FlagValue)

  function Colons(kind: FlagValue): string {
    match kind case NoValue => "" case Required => ":" case Optional => "::"
  }

  /** tmux's notation for a list of flags. */
  function Template(specs: seq<FlagSpec>): string {
    if specs == [] then "" else [specs[0].letter] + (Colons(specs[0].kind) + Template(specs[1..]))
  }

  function Declared(specs: seq<FlagSpec>, flag: char): FlagValue {
    if specs == [] then NoValue else if specs[0].letter == flag then specs[0].kind else Declared(specs[1..], flag)
  }

  lemma {:induction false} SkipColons(colons: string, rest: string, flag: char)
    requires forall i :: 0 <= i < |colons| ==> colons[i] == ':'
    ensures KindIn(colons + rest, flag) == KindIn(rest, flag)
  {
    if colons == "" {
      assert colons + rest == rest;
    } else {
      assert (colons + rest)[1..] == colons[1..] + rest;
      SkipColons(colons[1..], rest, flag);
    }
  }

  /** Reading a template gives every letter exactly the kind it was declared with. */
  lemma {:induction false} TemplateDeclares(specs: seq<FlagSpec>, flag: char)
    requires forall s <- specs :: IsAlphanumeric(s.letter)
    ensures KindIn(Template(specs), flag) == if IsAlphanumeric(flag) then Declared(specs, flag) else NoValue
  {
    if specs != [] {
      var colons, more := Colons(specs[0].kind), Template(specs[1..]);
      var t := [specs[0].letter] + (colons + more);
      assert specs[0] in specs && forall s :: s in specs[1..] ==> s in specs;
      TemplateDeclares(specs[1..], flag);
      SkipColons(colons, more, flag);
      assert t[1..] == colons + more;
      assert more != "" ==> more[0] == specs[1..][0].letter && specs[1] in specs;
    }
  }

  // ----- the scan -----

  /** How the command reads each letter: its template, then the extra flags. */
  function KindOf(template: string, extra: string, flag: char): FlagValue {
    if KindIn(template, flag).NoValue? then KindIn(extra, flag) else KindIn(template, flag)
  }

  predicate IsFlagToken(token: string) { token != "" && token[0] == '-' && token != "-" && token != "--" }

  /** `looks_like_another_flag`; a negative number does not. */
  predicate LooksLikeAnotherFlag(token: string) {
    |token| >= 2 && token[0] == '-' && (token[1] == '-' || IsAlpha(token[1]))
  }

  /** What a cluster of letters leaves open: nothing, or a value for its last letter. */
  datatype Want = Nothing | Value(flag: char, kind: FlagValue)

  /** The first letter that takes a value ends the cluster; letters after it are
      its attached value. */
  function Wants(kind: char -> FlagValue, letters: string): (w: Want)
    ensures w.Value? ==> !w.kind.NoValue? && w.kind == kind(w.flag)
  {
    if letters == "" then Nothing
    else if kind(letters[0]).NoValue? then Wants(kind, letters[1..])
    else if |letters| > 1 then Nothing
    else Value(letters[0], kind(letters[0]))
  }

  datatype Verdict = Accepted | Rejected(flag: char)

  /** Whether the token after a flag is taken as its value. */
  predicate TakesNext(w: Want, next: string) {
    w.Value? && !(w.kind.Optional? && LooksLikeAnotherFlag(next))
  }

  function Scan(kind: char -> FlagValue, args: seq<string>): Verdict
    decreases |args|
  {
    if args == [] || !IsFlagToken(args[0]) then Accepted
    else
      var w := Wants(kind, args[0][1..]);
      if |args| == 1 then (if w.Value? && w.kind.Required? then Rejected(w.flag) else Accepted)
      else if TakesNext(w, args[1]) then Scan(kind, args[2..])
      else Scan(kind, args[1..])
  }

  /** `validate_flag_arguments`, for a command whose template is known. */
  method ValidateFlagArguments(template: string, extra: string, args: seq<string>) returns (r: Verdict)
    ensures r == Scan(flag => KindOf(template, extra, flag), args)
  {
    ghost var kind := flag => KindOf(template, extra, flag);
    var i: nat := 0;
    assert args[0..] == args;
    while i < |args|
      invariant i <= |args|
      invariant Scan(kind, args[i..]) == Scan(kind, args)
    {
      var token := args[i];
      if !IsFlagToken(token) { break; }
      ghost var here := args[i..];
      assert here[1..] == args[i + 1..] && (|here| > 1 ==> here[2..] == args[i + 2..]);
      i := i + 1;
      var letters := token[1..];
      var k: nat := 0;
      var taken := false;
      assert letters[0..] == letters;
      while k < |letters|
        invariant k <= |letters|
        invariant Wants(kind, letters[k..]) == Wants(kind, letters)
        invariant !taken
      {
        var flag := letters[k];
        assert letters[k..][1..] == letters[k + 1..];
        k := k + 1;
        var value := FlagValueKind(template, flag);
        if value.NoValue? { value := FlagValueKind(extra, flag); }
        assert value == kind(flag);
        if value.NoValue? { continue; }
        if k < |letters| { break; }
        if i < |args| {
          taken := !(value.Optional? && LooksLikeAnotherFlag(args[i]));
        } else if value.Required? {
          return Rejected(flag);
        }
        break;
      }
      if taken { i := i + 1; }
    }
    r := Accepted;
  }

  // ----- the scan on written tokens -----

  /** Letters that take no value leave what follows them to decide. */
  lemma {:induction false} PlainLetters(kind: char -> FlagValue, plain: string, more: string)
    requires forall c <- plain :: kind(c) == NoValue
    ensures Wants(kind, plain + more) == Wants(kind, more)
  {
    if plain == "" {
      assert plain + more == more;
    } else {
      assert plain[0] in plain && forall c :: c in plain[1..] ==> c in plain;
      assert (plain + more)[1..] == plain[1..] + more;
      PlainLetters(kind, plain[1..], more);
    }
  }

  /** A token of plain letters, and one whose first letter that takes a value has it
      attached, are read on their own. */
  lemma WholeTokens(kind: char -> FlagValue, plain: string, flag: char, value: string, rest: seq<string>)
    requires (forall c <- plain :: kind(c) == NoValue) && kind(flag) != NoValue
    ensures plain != "" && plain != "-" ==> Scan(kind, ["-" + plain] + rest) == Scan(kind, rest)
    ensures value != "" && "-" + plain + [flag] + value != "--" ==>
              Scan(kind, ["-" + plain + [flag] + value] + rest) == Scan(kind, rest)
  {
    PlainLetters(kind, plain, "");
    assert ("-" + plain)[1..] == plain + "" && (["-" + plain] + rest)[1..] == rest;
    var token := "-" + plain + [flag] + value;
    PlainLetters(kind, plain, [flag] + value);
    assert token[1..] == plain + ([flag] + value) && ([token] + rest)[1..] == rest;
  }

  /** The letter that takes a value comes last: a required value is the next token,
      whatever it looks like, and missing it is an error; an optional value is the next
      token unless that is `-` and another `-` or a letter. */
  lemma OpenTokens(kind: char -> FlagValue, plain: string, flag: char, next: string, rest: seq<string>)
    requires (forall c <- plain :: kind(c) == NoValue) && (plain != "" || flag != '-')
    ensures var token := "-" + plain + [flag];
            var another := |next| >= 2 && next[0] == '-' &&
                           (next[1] == '-' || 'a' <= next[1] <= 'z' || 'A' <= next[1] <= 'Z');
            && (kind(flag) == Required ==>
                  && Scan(kind, [token]) == Rejected(flag)
                  && Scan(kind, [token, next] + rest) == Scan(kind, rest))
            && (kind(flag) == Optional ==>
                  && Scan(kind, [token]) == Accepted
                  && Scan(kind, [token, next] + rest) == Scan(kind, (if another then [next] else []) + rest))
  {
    var token := "-" + plain + [flag];
    PlainLetters(kind, plain, [flag]);
    assert token[1..] == plain + [flag] && [token][1..] == [];
    var args := [token, next] + rest;
    assert args[1..] == [next] + rest && args[2..] == rest == [] + rest;
  }

  /** The flags end at `-`, at `--` and at anything that does not begin with a dash. */
  lemma FlagsEnd(kind: char -> FlagValue, token: string, rest: seq<string>)
    requires token == "" || token[0] != '-' || token == "-" || token == "--"
    ensures Scan(kind, [token] + rest) == Accepted && Scan(kind, []) == Accepted
  {}

  /** The template decides, and the extra flags where it says nothing. */
  lemma KindIsDeclared(specs: seq<FlagSpec>, extra: seq<FlagSpec>, flag: char)
    requires forall s <- specs + extra :: IsAlphanumeric(s.letter)
    ensures KindOf(Template(specs), Template(extra), flag) ==
              if !IsAlphanumeric(flag) then NoValue
              else if Declared(specs, flag) != NoValue then Declared(specs, flag) else Declared(extra, flag)
  {
    hide Template, Declared, KindIn;
    assert forall s :: s in specs || s in extra ==> s in specs + extra;
    TemplateDeclares(specs, flag);
    TemplateDeclares(extra, flag);
  }

  // ----- what the verdict means -----

  /** How many tokens the scan takes in one go, given at least one. */
  function Taken(kind: char -> FlagValue, args: seq<string>): (n: nat)
    requires args != [] && IsFlagToken(args[0])
    ensures 1 <= n <= 2 && n <= |args|
  {
    if |args| > 1 && TakesNext(Wants(kind, args[0][1..]), args[1]) then 2 else 1
  }

  /** The scan looks at token `i` as a possible flag. */
  ghost predicate LooksAt(kind: char -> FlagValue, args: seq<string>, i: int)
    decreases |args|
  {
    i == 0 || (0 < i && args != [] && IsFlagToken(args[0])
               && LooksAt(kind, args[Taken(kind, args)..], i - Taken(kind, args)))
  }

  /** A line is rejected exactly when its last token is looked at as a flag and
      ends in a letter that requires a value. */
  lemma {:induction false} RejectedExactlyWhen(kind: char -> FlagValue, args: seq<string>, flag: char)
    ensures Scan(kind, args) == Rejected(flag) <==>
              && args != [] && LooksAt(kind, args, |args| - 1)
              && IsFlagToken(args[|args| - 1])
              && Wants(kind, args[|args| - 1][1..]) == Value(flag, Required)
    decreases |args|
  {
    hide Wants;
    if |args| > 1 && IsFlagToken(args[0]) {
      var n := Taken(kind, args);
      var rest := args[n..];
      RejectedExactlyWhen(kind, rest, flag);
      assert |rest| > 0 ==> rest[|rest| - 1] == args[|args| - 1];
    }
  }

  /** A rejected line is one token short: whatever token is added, it is accepted. */
  lemma {:induction false} OneMoreTokenIsEnough(kind: char -> FlagValue, args: seq<string>, token: string)
    requires Scan(kind, args).Rejected?
    ensures Scan(kind, args + [token]) == Accepted
    decreases |args|
  {
    hide Wants;
    var more := args + [token];
    if |args| == 1 {
      assert more[2..] == [];
    } else {
      var n := Taken(kind, args);
      assert more[1] == args[1];
      assert more[n..] == args[n..] + [token];
      OneMoreTokenIsEnough(kind, args[n..], token);
    }
  }

  /** Once the scan has looked at a token that is not a flag, the line is
      accepted whatever follows. */
  lemma {:induction false} PositionalEndsScan(kind: char -> FlagValue, args: seq<string>, i: nat, rest: seq<string>)
    requires i < |args| && LooksAt(kind, args, i) && !IsFlagToken(args[i])
    ensures Scan(kind, args) == Accepted
    ensures Scan(kind, args[..i + 1] + rest) == Accepted
    decreases |args|
  {
    hide Wants;
    var changed := args[..i + 1] + rest;
    assert changed[0] == args[0];
    if i > 0 {
      var n := Taken(kind, args);
      assert changed[1] == args[1];
      assert changed[n..] == args[n..][..i - n + 1] + rest;
      PositionalEndsScan(kind, args[n..], i - n, rest);
    }
  }
}
