/** The `%if / %elif / %else / %endif` stack machine of the configuration reader
    (`config.rs`), against the structured meaning of nested blocks. */
module IfStack {
  import opened Text

  /** A configuration line, after continuation joining and trimming. */
  datatype Line<Cond, Cmd> =
    | If(cond: Cond)
    | Elif(cond: Cond)
    | Else
    | Endif
    | Plain(cmd: Cmd)

  /** Evaluating a condition and running a line, in whatever state the
      configuration has reached. */
  datatype Semantics<!S, !Cond, !Cmd> = Semantics(
    holds: (S, Cond) -> bool,
    run: (S, Cmd) -> S)

  /** What happened, in order: conditions that were evaluated, with the answer,
      and lines that were run. */
  datatype Event<Cond, Cmd> = Tested(cond: Cond, answer: bool) | Ran(cmd: Cmd)

  /** The reader's state together with everything it has done. */
  datatype World<S, Cond, Cmd> = World(state: S, log: seq<Event<Cond, Cmd>>)

  function Test<S, Cond, Cmd>(sem: Semantics<S, Cond, Cmd>, w: World<S, Cond, Cmd>, c: Cond)
    : (r: (bool, World<S, Cond, Cmd>))
  {
    var answer := sem.holds(w.state, c);
    (answer, World(w.state, w.log + [Tested(c, answer)]))
  }

  function Run<S, Cond, Cmd>(sem: Semantics<S, Cond, Cmd>, w: World<S, Cond, Cmd>, c: Cmd): World<S, Cond, Cmd> {
    World(sem.run(w.state, c), w.log + [Ran(c)])
  }

  // ----- the machine -----

  datatype IfState = IfState(active: bool, satisfied: bool, parentActive: bool)

  predicate Active(stack: seq<IfState>) { stack == [] || stack[|stack| - 1].active }

  datatype Machine<S, Cond, Cmd> = Machine(world: World<S, Cond, Cmd>, stack: seq<IfState>)

  function WithTop(stack: seq<IfState>, top: IfState): seq<IfState>
    requires stack != []
  {
    stack[|stack| - 1 := top]
  }

  /** One line of the loop. A stray `%elif`, `%else` or `%endif` does nothing. */
  function Step<S, Cond, Cmd>(sem: Semantics<S, Cond, Cmd>, m: Machine<S, Cond, Cmd>, l: Line<Cond, Cmd>)
    : Machine<S, Cond, Cmd>
  {
    match l
    case If(c) =>
      var parent := Active(m.stack);
      if parent then
        var (answer, w) := Test(sem, m.world, c);
        Machine(w, m.stack + [IfState(answer, answer, parent)])
      else Machine(m.world, m.stack + [IfState(false, false, parent)])
    case Elif(c) =>
      if m.stack == [] then m
      else
        var top := m.stack[|m.stack| - 1];
        if top.parentActive && !top.satisfied then
          var (answer, w) := Test(sem, m.world, c);
          Machine(w, WithTop(m.stack, IfState(answer, answer, top.parentActive)))
        else Machine(m.world, WithTop(m.stack, top.(active := false)))
    case Else =>
      if m.stack == [] then m
      else
        var top := m.stack[|m.stack| - 1];
        Machine(m.world, WithTop(m.stack, IfState(top.parentActive && !top.satisfied, true, top.parentActive)))
    case Endif =>
      if m.stack == [] then m else Machine(m.world, m.stack[..|m.stack| - 1])
    case Plain(c) =>
      if Active(m.stack) then Machine(Run(sem, m.world, c), m.stack) else m
  }

  function RunLines<S, Cond, Cmd>(sem: Semantics<S, Cond, Cmd>, m: Machine<S, Cond, Cmd>, lines: seq<Line<Cond, Cmd>>)
    : Machine<S, Cond, Cmd>
    decreases |lines|
  {
    if lines == [] then m else RunLines(sem, Step(sem, m, lines[0]), lines[1..])
  }

  lemma {:induction false} RunLinesConcat<S, Cond, Cmd>(
      sem: Semantics<S, Cond, Cmd>, m: Machine<S, Cond, Cmd>, a: seq<Line<Cond, Cmd>>, b: seq<Line<Cond, Cmd>>)
    ensures RunLines(sem, m, a + b) == RunLines(sem, RunLines(sem, m, a), b)
    decreases |a|
  {
    hide Step;
    if a == [] {
      assert a + b == b;
    } else {
      assert (a + b)[0] == a[0] && (a + b)[1..] == a[1..] + b;
      RunLinesConcat(sem, Step(sem, m, a[0]), a[1..], b);
    }
  }

  /** The reader: `app` and the stack are updated line by line. */
  class Reader<S, Cond, Cmd> {
    var state: S
    var ifStack: seq<IfState>
    ghost var log: seq<Event<Cond, Cmd>>

    constructor (s: S)
      ensures state == s && ifStack == [] && log == []
    {
      state, ifStack, log := s, [], [];
    }

    ghost function Now(): Machine<S, Cond, Cmd>
      reads this
    {
      Machine(World(state, log), ifStack)
    }

    /** `parse_config_content`, from the joined lines on. */
    method ParseConfigContent(sem: Semantics<S, Cond, Cmd>, lines: seq<Line<Cond, Cmd>>)
      modifies this
      ensures Now() == RunLines(sem, old(Now()), lines)
    {
      assert lines[0..] == lines;
      for i := 0 to |lines|
        invariant RunLines(sem, Now(), lines[i..]) == RunLines(sem, old(Now()), lines)
      {
        label before:
        assert lines[i..][1..] == lines[i + 1..];
        ghost var next := Step(sem, Now(), lines[i]);
        match lines[i] {
          case If(c) =>
            var parentActive := ifStack == [] || ifStack[|ifStack| - 1].active;
            var result := false;
            if parentActive {
              result := sem.holds(state, c);
              log := log + [Tested(c, result)];
            }
            ifStack := ifStack + [IfState(parentActive && result, result, parentActive)];
          case Elif(c) =>
            if ifStack != [] {
              var top := ifStack[|ifStack| - 1];
              if top.parentActive && !top.satisfied {
                var result := sem.holds(state, c);
                log := log + [Tested(c, result)];
                top := top.(active := result);
                if result { top := top.(satisfied := true); }
              } else {
                top := top.(active := false);
              }
              ifStack := ifStack[|ifStack| - 1 := top];
            }
          case Else =>
            if ifStack != [] {
              var top := ifStack[|ifStack| - 1];
              top := top.(active := top.parentActive && !top.satisfied);
              top := top.(satisfied := true);
              ifStack := ifStack[|ifStack| - 1 := top];
            }
          case Endif =>
            if ifStack != [] { ifStack := ifStack[..|ifStack| - 1]; }
          case Plain(c) =>
            if ifStack == [] || ifStack[|ifStack| - 1].active {
              state := sem.run(state, c);
              log := log + [Ran(c)];
            }
        }
        assert Now() == next;
      }
    }
  }

  // ----- nested scripts -----

  /** A well-nested configuration. A block may carry any further `%elif` and
      `%else` arms, in any order. */
  datatype Script<Cond, Cmd> =
    | Empty
    | Do(cmd: Cmd, rest: Script<Cond, Cmd>)
    | Block(cond: Cond, body: Script<Cond, Cmd>, arms: Arms<Cond, Cmd>, rest: Script<Cond, Cmd>)

  datatype Arms<Cond, Cmd> =
    | NoMore
    | ElifArm(cond: Cond, body: Script<Cond, Cmd>, more: Arms<Cond, Cmd>)
    | ElseArm(body: Script<Cond, Cmd>, more: Arms<Cond, Cmd>)

  /** The lines of a script. */
  function Flatten<Cond, Cmd>(s: Script<Cond, Cmd>): seq<Line<Cond, Cmd>> {
    match s
    case Empty => []
    case Do(c, rest) => [Plain(c)] + Flatten(rest)
    case Block(c, body, arms, rest) => [If(c)] + (Flatten(body) + (FlattenArms(arms) + ([Endif] + Flatten(rest))))
  }

  function FlattenArms<Cond, Cmd>(a: Arms<Cond, Cmd>): seq<Line<Cond, Cmd>> {
    match a
    case NoMore => []
    case ElifArm(c, body, more) => [Elif(c)] + (Flatten(body) + FlattenArms(more))
    case ElseArm(body, more) => [Else] + (Flatten(body) + FlattenArms(more))
  }

  /** The structured meaning: the first arm whose condition holds is run, and
      nothing else of the block is evaluated or run. */
  function Meaning<S, Cond, Cmd>(sem: Semantics<S, Cond, Cmd>, w: World<S, Cond, Cmd>, s: Script<Cond, Cmd>)
    : World<S, Cond, Cmd>
    decreases s
  {
    match s
    case Empty => w
    case Do(c, rest) => Meaning(sem, Run(sem, w, c), rest)
    case Block(c, body, arms, rest) =>
      var (answer, tested) := Test(sem, w, c);
      Meaning(sem, if answer then Meaning(sem, tested, body) else ArmsMeaning(sem, tested, arms), rest)
  }

  function ArmsMeaning<S, Cond, Cmd>(sem: Semantics<S, Cond, Cmd>, w: World<S, Cond, Cmd>, a: Arms<Cond, Cmd>)
    : World<S, Cond, Cmd>
    decreases a
  {
    match a
    case NoMore => w
    case ElifArm(c, body, more) =>
      var (answer, tested) := Test(sem, w, c);
      if answer then Meaning(sem, tested, body) else ArmsMeaning(sem, tested, more)
    case ElseArm(body, _) => Meaning(sem, w, body)
  }

  // ----- the machine implements the meaning -----

  lemma Push<T>(stack: seq<T>, top: T)
    ensures (stack + [top])[|stack + [top]| - 1] == top
    ensures (stack + [top])[..|stack + [top]| - 1] == stack
    ensures forall t :: (stack + [top])[|stack + [top]| - 1 := t] == stack + [t]
  {
    forall t ensures (stack + [top])[|stack + [top]| - 1 := t] == stack + [t] {}
  }

  /** Where no line is active, a script changes nothing at all. */
  lemma {:induction false} InactiveSkips<S, Cond, Cmd>(
      sem: Semantics<S, Cond, Cmd>, m: Machine<S, Cond, Cmd>, s: Script<Cond, Cmd>)
    requires !Active(m.stack)
    ensures RunLines(sem, m, Flatten(s)) == m
    decreases s
  {
    match s
    case Empty =>
    case Do(c, rest) =>
      RunOne(sem, m, Plain(c), Flatten(rest));
      InactiveSkips(sem, m, rest);
    case Block(c, body, arms, rest) =>
      var top := IfState(false, false, false);
      Push(m.stack, top);
      var inner := Machine(m.world, m.stack + [top]);
      var tail := [Endif] + Flatten(rest);
      RunOne(sem, m, If(c), Flatten(body) + (FlattenArms(arms) + tail));
      RunLinesConcat(sem, inner, Flatten(body), FlattenArms(arms) + tail);
      InactiveSkips(sem, inner, body);
      RunLinesConcat(sem, inner, FlattenArms(arms), tail);
      DeadArms(sem, m.world, m.stack, top, arms);
      Push(m.stack, Left(top, arms));
      RunOne(sem, Machine(m.world, m.stack + [Left(top, arms)]), Endif, Flatten(rest));
      InactiveSkips(sem, m, rest);
  }

  lemma RunOne<S, Cond, Cmd>(
      sem: Semantics<S, Cond, Cmd>, m: Machine<S, Cond, Cmd>, l: Line<Cond, Cmd>, rest: seq<Line<Cond, Cmd>>)
    ensures RunLines(sem, m, [l] + rest) == RunLines(sem, Step(sem, m, l), rest)
  {
    hide Step;
    assert ([l] + rest)[1..] == rest;
  }

  /** What is left of a block's state after arms that cannot run. */
  function Left<Cond, Cmd>(top: IfState, a: Arms<Cond, Cmd>): IfState
    decreases a
  {
    match a
    case NoMore => top
    case ElifArm(_, _, more) => Left(top.(active := false), more)
    case ElseArm(_, more) => Left(IfState(false, true, top.parentActive), more)
  }

  /** Arms after one that has run, or under an inactive parent, are skipped and
      their conditions are not evaluated. */
  lemma {:induction false} DeadArms<S, Cond, Cmd>(
      sem: Semantics<S, Cond, Cmd>, w: World<S, Cond, Cmd>, stack: seq<IfState>, top: IfState, a: Arms<Cond, Cmd>)
    requires top.satisfied || !top.parentActive
    ensures RunLines(sem, Machine(w, stack + [top]), FlattenArms(a)) == Machine(w, stack + [Left(top, a)])
    decreases a
  {
    var m := Machine(w, stack + [top]);
    Push(stack, top);
    match a
    case NoMore =>
    case ElifArm(c, body, more) =>
      var next := top.(active := false);
      RunOne(sem, m, Elif(c), Flatten(body) + FlattenArms(more));
      Push(stack, next);
      RunLinesConcat(sem, Machine(w, stack + [next]), Flatten(body), FlattenArms(more));
      InactiveSkips(sem, Machine(w, stack + [next]), body);
      DeadArms(sem, w, stack, next, more);
    case ElseArm(body, more) =>
      var next := IfState(false, true, top.parentActive);
      RunOne(sem, m, Else, Flatten(body) + FlattenArms(more));
      Push(stack, next);
      RunLinesConcat(sem, Machine(w, stack + [next]), Flatten(body), FlattenArms(more));
      InactiveSkips(sem, Machine(w, stack + [next]), body);
      DeadArms(sem, w, stack, next, more);
  }

  /** Arms of a block in an active context, none of which has run yet. */
  lemma {:induction false} LiveArms<S, Cond, Cmd>(
      sem: Semantics<S, Cond, Cmd>, w: World<S, Cond, Cmd>, stack: seq<IfState>, a: Arms<Cond, Cmd>)
    returns (last: IfState)
    ensures RunLines(sem, Machine(w, stack + [IfState(false, false, true)]), FlattenArms(a))
         == Machine(ArmsMeaning(sem, w, a), stack + [last])
    decreases a, 0
  {
    var top := IfState(false, false, true);
    var m := Machine(w, stack + [top]);
    Push(stack, top);
    match a
    case NoMore =>
      last := top;
    case ElifArm(c, body, more) =>
      RunOne(sem, m, Elif(c), Flatten(body) + FlattenArms(more));
      var (answer, tested) := Test(sem, w, c);
      if answer {
        last := TakenArm(sem, tested, stack, body, more);
      } else {
        Push(stack, top);
        RunLinesConcat(sem, Machine(tested, stack + [top]), Flatten(body), FlattenArms(more));
        InactiveSkips(sem, Machine(tested, stack + [top]), body);
        last := LiveArms(sem, tested, stack, more);
      }
    case ElseArm(body, more) =>
      RunOne(sem, m, Else, Flatten(body) + FlattenArms(more));
      last := TakenArm(sem, w, stack, body, more);
  }

  /** The arm that runs, and the dead ones after it. */
  lemma {:induction false} TakenArm<S, Cond, Cmd>(
      sem: Semantics<S, Cond, Cmd>, w: World<S, Cond, Cmd>, stack: seq<IfState>,
      body: Script<Cond, Cmd>, more: Arms<Cond, Cmd>)
    returns (last: IfState)
    ensures RunLines(sem, Machine(w, stack + [IfState(true, true, true)]), Flatten(body) + FlattenArms(more))
         == Machine(Meaning(sem, w, body), stack + [last])
    decreases body, 1
  {
    var top := IfState(true, true, true);
    Push(stack, top);
    RunLinesConcat(sem, Machine(w, stack + [top]), Flatten(body), FlattenArms(more));
    MachineIsMeaning(sem, Machine(w, stack + [top]), body);
    DeadArms(sem, Meaning(sem, w, body), stack, top, more);
    last := Left(top, more);
  }

  /** In an active context the machine, run on the lines of a script, evaluates
      exactly the conditions and runs exactly the lines of the structured
      meaning, in the same order, and leaves the stack as it was. */
  lemma {:induction false} MachineIsMeaning<S, Cond, Cmd>(
      sem: Semantics<S, Cond, Cmd>, m: Machine<S, Cond, Cmd>, s: Script<Cond, Cmd>)
    requires Active(m.stack)
    ensures RunLines(sem, m, Flatten(s)) == Machine(Meaning(sem, m.world, s), m.stack)
    decreases s, 0
  {
    match s
    case Empty =>
    case Do(c, rest) =>
      RunOne(sem, m, Plain(c), Flatten(rest));
      MachineIsMeaning(sem, Machine(Run(sem, m.world, c), m.stack), rest);
    case Block(c, body, arms, rest) =>
      var (answer, tested) := Test(sem, m.world, c);
      var tail := [Endif] + Flatten(rest);
      RunOne(sem, m, If(c), Flatten(body) + (FlattenArms(arms) + tail));
      var top := IfState(answer, answer, true);
      var inner := Machine(tested, m.stack + [top]);
      var lines := Flatten(body) + FlattenArms(arms);
      assert Flatten(body) + (FlattenArms(arms) + tail) == lines + tail;
      RunLinesConcat(sem, inner, lines, tail);
      var last;
      if answer {
        last := TakenArm(sem, tested, m.stack, body, arms);
      } else {
        Push(m.stack, top);
        RunLinesConcat(sem, inner, Flatten(body), FlattenArms(arms));
        InactiveSkips(sem, inner, body);
        last := LiveArms(sem, tested, m.stack, arms);
      }
      var after := if answer then Meaning(sem, tested, body) else ArmsMeaning(sem, tested, arms);
      Push(m.stack, last);
      RunOne(sem, Machine(after, m.stack + [last]), Endif, Flatten(rest));
      MachineIsMeaning(sem, Machine(after, m.stack), rest);
  }

  // ----- conditions -----

  /** Quotes around a condition are dropped: all double ones, then all single ones. */
  function Unquote(s: string): string { TrimBy(TrimBy(Trim(s), IsDoubleQuote), IsSingleQuote) }

  predicate IsDoubleQuote(c: char) { c == '"' }
  predicate IsSingleQuote(c: char) { c == '\'' }

  predicate StartsWith(s: string, prefix: string) { prefix <= s }

  // ----- from text to lines -----

  const BYTE_ORDER_MARK: char := '\U{FEFF}'

  predicate IsNewline(c: char) { c == '\n' }
  predicate IsBackslash(c: char) { c == '\\' }

  /** `str::lines`; what it does with a carriage return does not matter, as the end of
      every line is trimmed. */
  function CutLines(text: string): seq<string>
    decreases |text|
  {
    if text == "" then []
    else
      var n := Find(text, IsNewline);
      if n == |text| then [text] else [text[..n]] + CutLines(text[n + 1..])
  }

  predicate EndsInBackslash(s: string) { s != "" && s[|s| - 1] == '\\' }

  /** Lines that end in a backslash continue on the next one; `carried` is what has been
      continued so far. */
  function Joined(lines: seq<string>, carried: string): seq<string>
    decreases |lines|
  {
    if lines == [] then (if carried == "" then [] else [carried])
    else
      var t := TrimRight(lines[0]);
      if EndsInBackslash(t) then Joined(lines[1..], carried + TrimEnd(t, IsBackslash) + " ")
      else [carried + t] + Joined(lines[1..], "")
  }

  function WithoutMark(content: string): string {
    if content != "" && content[0] == BYTE_ORDER_MARK then content[1..] else content
  }

  function LogicalLines(content: string): seq<string> { Joined(CutLines(WithoutMark(content)), "") }

  /** The loop that joins continued lines. */
  method JoinLines(content: string) returns (lines: seq<string>)
    ensures lines == LogicalLines(content)
  {
    hide TrimEnd, TrimRight, EndsInBackslash, Joined, CutLines;
    var cut := CutLines(WithoutMark(content));
    lines := [];
    var carried := "";
    assert cut[0..] == cut && [] + Joined(cut, "") == Joined(cut, "");
    for i := 0 to |cut|
      invariant lines + Joined(cut[i..], carried) == LogicalLines(content)
    {
      JoinedFrom(cut, i, carried, lines);
      var trimmed := TrimRight(cut[i]);
      if EndsInBackslash(trimmed) {
        carried := carried + TrimEnd(trimmed, IsBackslash);
        carried := carried + " ";
      } else if carried != "" {
        lines, carried := lines + [carried + trimmed], "";
      } else {
        assert "" + trimmed == trimmed;
        lines := lines + [trimmed];
      }
    }
    assert cut[|cut|..] == [];
    NothingJoined(carried);
    if carried != "" { lines := lines + [carried]; }
  }

  lemma JoinedFrom(cut: seq<string>, i: nat, carried: string, before: seq<string>)
    requires i < |cut|
    ensures var t := TrimRight(cut[i]);
            before + Joined(cut[i..], carried) ==
              if EndsInBackslash(t) then before + Joined(cut[i + 1..], carried + TrimEnd(t, IsBackslash) + " ")
              else (before + [carried + t]) + Joined(cut[i + 1..], "")
  {
    hide TrimRight, EndsInBackslash, TrimEnd;
    assert cut[i..][0] == cut[i] && cut[i..][1..] == cut[i + 1..];
    Associate(before, [carried + TrimRight(cut[i])], Joined(cut[i + 1..], ""));
  }

  lemma NothingJoined(carried: string)
    ensures Joined([], carried) == if carried == "" then [] else [carried]
  {}

  predicate IsPadding(s: string) { forall i :: 0 <= i < |s| ==> IsSpace(s[i]) && s[i] != '\n' }

  /** A line, its trailing blanks and its newline are cut off the text. */
  lemma FirstLine(line: string, rest: string)
    requires '\n' !in line
    ensures CutLines(line + ("\n" + rest)) == [line] + CutLines(rest)
  {
    var s := line + ("\n" + rest);
    FindAfter(line, "\n" + rest, IsNewline);
    assert s[..|line|] == line && s[|line| + 1..] == rest;
  }

  /** A line that ends in backslashes, with or without blanks after them, is carried to
      the next line without them and with one space. */
  lemma ContinuedLine(line: string, marks: string, blanks: string, rest: string, carried: string)
    requires '\n' !in line && (line == "" || line[|line| - 1] != '\\')
    requires marks != "" && (forall i :: 0 <= i < |marks| ==> marks[i] == '\\') && IsPadding(blanks)
    ensures Joined(CutLines(line + marks + blanks + ("\n" + rest)), carried)
         == Joined(CutLines(rest), carried + line + " ")
  {
    hide CutLines, TrimEnd;
    assert '\n' !in line + marks + blanks;
    FirstLine(line + marks + blanks, rest);
    assert (line + marks)[|line + marks| - 1] == marks[|marks| - 1];
    TrimEndSkips(line + marks, blanks, IsSpace);
    TrimEndSkips(line, marks, IsBackslash);
    var cut := [line + marks + blanks] + CutLines(rest);
    assert cut[1..] == CutLines(rest);
  }

  /** Any other line ends the logical line. */
  lemma LastLine(line: string, blanks: string, rest: string, carried: string)
    requires '\n' !in line && (line == "" || (!IsSpace(line[|line| - 1]) && line[|line| - 1] != '\\'))
    requires IsPadding(blanks)
    ensures Joined(CutLines(line + blanks + ("\n" + rest)), carried) == [carried + line] + Joined(CutLines(rest), "")
  {
    hide CutLines, TrimEnd;
    assert '\n' !in line + blanks;
    FirstLine(line + blanks, rest);
    TrimEndSkips(line, blanks, IsSpace);
    var cut := [line + blanks] + CutLines(rest);
    assert cut[1..] == CutLines(rest);
  }

  /** Lines, each continued by a backslash at its end. */
  function Continued(lines: seq<string>): string {
    if lines == [] then "" else lines[0] + "\\" + "" + ("\n" + Continued(lines[1..]))
  }

  function Spaced(lines: seq<string>): string {
    if lines == [] then "" else lines[0] + (" " + Spaced(lines[1..]))
  }

  /** Continued lines and the line after them read as one, with a space in place of each
      backslash and newline; what follows is read on its own. */
  lemma {:induction false} ContinuedLinesAreOne(lines: seq<string>, last: string, rest: string, carried: string)
    requires forall l <- lines :: '\n' !in l && (l == "" || l[|l| - 1] != '\\')
    requires '\n' !in last && (last == "" || (!IsSpace(last[|last| - 1]) && last[|last| - 1] != '\\'))
    ensures Joined(CutLines(Continued(lines) + (last + ("\n" + rest))), carried)
         == [carried + Spaced(lines) + last] + Joined(CutLines(rest), "")
    decreases |lines|
  {
    hide Joined, CutLines;
    var tail := last + ("\n" + rest);
    if lines == [] {
      LastLine(last, "", rest, carried);
      assert Continued(lines) + tail == last + "" + ("\n" + rest);
      assert carried + Spaced(lines) + last == carried + last;
    } else {
      var first, more := lines[0], Continued(lines[1..]);
      assert first in lines && forall l :: l in lines[1..] ==> l in lines;
      FirstContinued(first, more, tail);
      ContinuedLine(first, "\\", "", more + tail, carried);
      ContinuedLinesAreOne(lines[1..], last, rest, carried + first + " ");
      FirstSpaced(carried, first, Spaced(lines[1..]));
    }
  }

  lemma FirstContinued(first: string, more: string, tail: string)
    ensures first + "\\" + "" + ("\n" + more) + tail == first + "\\" + "" + ("\n" + (more + tail))
  {
    var a := first + "\\" + "";
    assert "\n" + more + tail == "\n" + (more + tail);
    Associate(a, "\n" + more, tail);
  }

  lemma FirstSpaced(carried: string, first: string, more: string)
    ensures carried + first + " " + more == carried + (first + (" " + more))
  {}

  /** A text that ends while a line is continued still gives that line. */
  lemma ContinuedToTheEnd(line: string, marks: string, carried: string)
    requires '\n' !in line && (line == "" || line[|line| - 1] != '\\')
    requires marks != "" && forall i :: 0 <= i < |marks| ==> marks[i] == '\\'
    ensures Joined(CutLines(line + marks), carried) == [carried + line + " "]
  {
    hide TrimEnd;
    var t := line + marks;
    assert '\n' !in t && t[|t| - 1] == marks[|marks| - 1];
    FindAfter(t, "", IsNewline);
    assert t + "" == t && t == line + marks + "";
    TrimEndSkips(t, "", IsSpace);
    TrimEndSkips(line, marks, IsBackslash);
  }

  lemma LogicalLinesOf(content: string)
    ensures LogicalLines("\U{FEFF}" + content) == Joined(CutLines(content), "")
    ensures content == "" || content[0] != '\U{FEFF}' ==> LogicalLines(content) == Joined(CutLines(content), "")
  {
    hide Joined, CutLines;
    assert ("\U{FEFF}" + content)[1..] == content;
  }

  /** A command over two lines. */
  lemma TwoLinesAreOne()
    ensures LogicalLines("a\\\nb\n") == ["a b"]
  {
    hide Joined, CutLines;
    LogicalLinesOf("a\\\nb\n");
    assert "a\\\nb\n" == "a" + "\\" + "" + ("\n" + "b\n");
    ContinuedLine("a", "\\", "", "b\n", "");
    assert "" + "a" + " " == "a " && "b\n" == "b" + "" + ("\n" + "");
    LastLine("b", "", "", "a ");
    assert "a " + "b" == "a b";
    NothingCut();
    NothingJoined("");
  }

  // ----- reading directives -----

  /** A line as the reader sees it: trimmed first; blank lines and unknown directives
      are skipped. `%hidden` is run like a plain line. */
  function Classify(line: string): Option<Line<string, string>> {
    var l := Trim(line);
    if l == "" then None
    else if l[0] == '%' then
      if StartsWith(l, "%if ") || StartsWith(l, "%if\t") then Some(If(Unquote(l[3..])))
      else if StartsWith(l, "%elif ") || StartsWith(l, "%elif\t") then Some(Elif(Unquote(l[5..])))
      else if l == "%else" then Some(Else)
      else if l == "%endif" then Some(Endif)
      else if StartsWith(l, "%hidden ") then Some(Plain(l))
      else None
    else Some(Plain(l))
  }

  function ClassifyAll(ls: seq<string>): seq<Line<string, string>> {
    if ls == [] then []
    else (match Classify(ls[0]) case None => [] case Some(l) => [l]) + ClassifyAll(ls[1..])
  }

  /** A line of a script as a person would write it. */
  function Write(l: Line<string, string>): string {
    match l
    case If(c) => "%if \"" + c + "\""
    case Elif(c) => "%elif \"" + c + "\""
    case Else => "%else"
    case Endif => "%endif"
    case Plain(c) => c
  }

  /** A written line with white space around it. */
  datatype Laid = Laid(left: string, line: Line<string, string>, right: string)

  function LineText(l: Laid): string { l.left + Write(l.line) + l.right }

  function ConfigText(ls: seq<Laid>): string {
    if ls == [] then "" else LineText(ls[0]) + "\n" + ConfigText(ls[1..])
  }

  function LinesOf(ls: seq<Laid>): seq<Line<string, string>> {
    if ls == [] then [] else [ls[0].line] + LinesOf(ls[1..])
  }

  predicate NoOuterQuote(c: string) {
    c != "" ==> c[0] != '"' && c[0] != '\'' && c[|c| - 1] != '"' && c[|c| - 1] != '\''
  }

  /** A line that opens a block in braces, which the code collects and this reader does
      not model. */
  predicate OpensBraces(c: string) {
    (StartsWith(c, "if-shell ") || StartsWith(c, "if ")) && c[|c| - 1] == '{'
  }

  /** A condition on one line, without quotes at its ends; a line that is not blank at
      its ends nor continued, that opens no braces and is no directive other than
      `%hidden`. */
  predicate Writable(l: Line<string, string>) {
    match l
    case If(c) => NoOuterQuote(c) && '\n' !in c
    case Elif(c) => NoOuterQuote(c) && '\n' !in c
    case Plain(c) =>
      && c != "" && !IsSpace(c[0]) && !IsSpace(c[|c| - 1]) && '\n' !in c
      && c[0] != BYTE_ORDER_MARK && c[|c| - 1] != '\\' && !OpensBraces(c)
      && (c[0] == '%' ==> StartsWith(c, "%hidden "))
    case _ => true
  }

  lemma UnquoteQuoted(c: string)
    requires NoOuterQuote(c)
    ensures Unquote(" \"" + c + "\"") == c
  {
    var q := "\"" + c + "\"";
    assert " \"" + c + "\"" == " " + q + "";
    TrimKeeps(" ", q, "");
    if c == "" {
      assert q == "\"\"" + "";
      TrimStartSkips("\"\"", "", IsDoubleQuote);
    } else {
      TrimByKeeps("\"", c, "\"", IsDoubleQuote);
      assert "" + c + "" == c;
      TrimByKeeps("", c, "", IsSingleQuote);
    }
  }

  /** Single quotes are dropped too, bare or inside double ones, and none is needed; double
      quotes inside single ones stay. */
  lemma OtherQuotes(c: string)
    requires NoOuterQuote(c) && c != "" && !IsSpace(c[0]) && !IsSpace(c[|c| - 1])
    ensures Unquote(" " + c) == Unquote(" " + ("'" + c + "'")) == Unquote(" " + ("\"" + ("'" + c + "'") + "\"")) == c
    ensures Unquote(" " + ("'" + ("\"" + c + "\"") + "'")) == "\"" + c + "\""
  {
    hide TrimBy, Trim;
    var single, double := "'" + c + "'", "\"" + c + "\"";
    TrimQuotes("", c, "", " " + c);
    assert "" + c + "" == c;
    TrimQuotes("", single, "", " " + single);
    assert "" + single + "" == single;
    TrimQuotes("\"", single, "\"", " " + ("\"" + single + "\""));
    var both := "'" + double + "'";
    TrimQuotes("", both, "", " " + both);
    assert "" + both + "" == both;
    TrimByKeeps("", c, "", IsSingleQuote);
    TrimByKeeps("'", c, "'", IsSingleQuote);
    TrimByKeeps("'", double, "'", IsSingleQuote);
  }

  lemma TrimQuotes(left: string, t: string, right: string, s: string)
    requires (left == "" && right == "") || (left == "\"" && right == "\"")
    requires t != "" && !IsSpace(t[0]) && !IsSpace(t[|t| - 1]) && t[0] != '"' && t[|t| - 1] != '"'
    requires s == " " + (left + t + right)
    ensures TrimBy(Trim(s), IsDoubleQuote) == t
  {
    TrimKeeps(" ", left + t + right, "");
    assert " " + (left + t + right) + "" == s;
    TrimByKeeps(left, t, right, IsDoubleQuote);
  }

  /** A written line is visible at both ends and is one line. */
  lemma WrittenShape(l: Line<string, string>)
    requires Writable(l)
    ensures var t := Write(l);
            && t != "" && !IsSpace(t[0]) && !IsSpace(t[|t| - 1]) && '\n' !in t
            && t[0] != BYTE_ORDER_MARK && !EndsInBackslash(t)
  {}

  lemma WrittenIsRead(l: Line<string, string>, left: string, right: string)
    requires Writable(l) && IsPadding(left) && IsPadding(right)
    ensures Classify(left + Write(l) + right) == Some(l)
  {
    hide Unquote, Trim;
    WrittenShape(l);
    TrimKeeps(left, Write(l), right);
    match l
    case If(c) =>
      assert Write(l)[3..] == " \"" + c + "\"";
      UnquoteQuoted(c);
    case Elif(c) =>
      assert Write(l)[1] == 'e' && Write(l)[..6] == "%elif ";
      assert Write(l)[5..] == " \"" + c + "\"";
      UnquoteQuoted(c);
    case Plain(c) =>
      if c[0] == '%' { assert c[1] == "%hidden "[1] && c[7] == "%hidden "[7]; }
    case Else => assert "%else"[1] == 'e';
    case Endif => assert "%endif"[1] == 'e' && "%endif"[2] == 'n';
  }

  ghost predicate Laying(l: Laid) { Writable(l.line) && IsPadding(l.left) && IsPadding(l.right) }

  lemma LineIsCut(l: Laid, rest: string)
    requires Laying(l)
    ensures CutLines(LineText(l) + "\n" + rest) == [LineText(l)] + CutLines(rest)
  {
    hide Write, Writable;
    WrittenShape(l.line);
    var t := LineText(l);
    assert t + "\n" + rest == t + ("\n" + rest);
    FindAfter(t, "\n" + rest, IsNewline);
    assert (t + "\n" + rest)[..|t|] == t && (t + "\n" + rest)[|t| + 1..] == rest;
  }

  lemma LineIsTrimmed(l: Laid)
    requires Laying(l)
    ensures TrimRight(LineText(l)) == l.left + Write(l.line) && !EndsInBackslash(l.left + Write(l.line))
  {
    hide Write, Writable;
    WrittenShape(l.line);
    TrimEndSkips(l.left + Write(l.line), l.right, IsSpace);
  }

  lemma {:induction false} LaidAreRead(ls: seq<Laid>)
    requires forall l <- ls :: Laying(l)
    ensures ClassifyAll(Joined(CutLines(ConfigText(ls)), "")) == LinesOf(ls)
  {
    hide Classify, CutLines, LineText, Laying, TrimRight, EndsInBackslash;
    if ls == [] {
      NothingCut();
    } else {
      assert ls[0] in ls && forall l :: l in ls[1..] ==> l in ls;
      var l, cut := ls[0], CutLines(ConfigText(ls[1..]));
      LineIsCut(l, ConfigText(ls[1..]));
      LineIsTrimmed(l);
      LaidReads(l);
      LaidAreRead(ls[1..]);
      var first := l.left + Write(l.line);
      assert ([LineText(l)] + cut)[1..] == cut && "" + first == first;
      assert Joined([LineText(l)] + cut, "") == [first] + Joined(cut, "");
      assert ([first] + Joined(cut, ""))[1..] == Joined(cut, "");
    }
  }

  lemma NothingCut()
    ensures CutLines("") == []
  {}

  lemma LaidReads(l: Laid)
    requires Laying(l)
    ensures Classify(l.left + Write(l.line)) == Some(l.line)
  {
    hide Classify, Write, Writable;
    WrittenIsRead(l.line, l.left, "");
    assert l.left + Write(l.line) + "" == l.left + Write(l.line);
  }

  /** A text does not begin with a byte-order mark of its own. */
  lemma NoMark(ls: seq<Laid>)
    requires forall l <- ls :: Laying(l)
    ensures WithoutMark(ConfigText(ls)) == ConfigText(ls)
  {
    if ls != [] {
      hide Write, Writable;
      assert ls[0] in ls;
      WrittenShape(ls[0].line);
      var t := LineText(ls[0]);
      assert ConfigText(ls)[0] == t[0];
      assert t[0] == if ls[0].left == "" then Write(ls[0].line)[0] else ls[0].left[0];
    }
  }

  /** Writing a script out, with any indentation and trailing blanks and with or without
      a byte-order mark, and reading the text gives its structured meaning: for every
      nesting, every order of arms and every state. */
  lemma ConfigTextMeaning<S>(sem: Semantics<S, string, string>, w: World<S, string, string>, s: Script<string, string>,
                             ls: seq<Laid>)
    requires LinesOf(ls) == Flatten(s) && forall l <- ls :: Laying(l)
    ensures var read := RunLines(sem, Machine(w, []), ClassifyAll(LogicalLines(ConfigText(ls))));
            read == Machine(Meaning(sem, w, s), [])
    ensures LogicalLines([BYTE_ORDER_MARK] + ConfigText(ls)) == LogicalLines(ConfigText(ls))
  {
    hide Laying, Joined, CutLines;
    NoMark(ls);
    LaidAreRead(ls);
    assert ([BYTE_ORDER_MARK] + ConfigText(ls))[1..] == ConfigText(ls);
    MachineIsMeaning(sem, Machine(w, []), s);
  }

  /** Trimming matters: an indented `%endif` closes the block, so it is not a line that a
      block could hold. */
  lemma IndentedEndifCloses()
    ensures Classify(" %endif") == Some(Endif)
  {
    assert " " + "%endif" + "" == " %endif";
    TrimKeeps(" ", "%endif", "");
    assert "%endif"[1] == 'e' && "%endif"[2] == 'n';
  }
}
