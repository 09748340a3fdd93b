/** Splitting a command line into chained commands (`config.rs`) and a command
    into arguments (`commands.rs`). */
module CommandLine {
  import opened Text

  // ----- chained commands -----

  /** A segment is kept when something is left of it after trimming. */
  function PushSegment(seg: string): seq<string> {
    if Trim(seg) == "" then [] else [Trim(seg)]
  }

  datatype Quotes = Unquoted | Single | Double

  /** Length of a separator `;` or `\;` at the front, or 0. */
  function SeparatorLength(s: string): (n: nat)
    ensures n <= |s|
  {
    if s != "" && s[0] == ';' then 1
    else if |s| > 1 && s[0] == '\\' && s[1] == ';' then 2
    else 0
  }

  /** A separator counts only as a whole token outside quotes. */
  predicate AtSeparator(s: string, startsToken: bool, q: Quotes) {
    var n := SeparatorLength(s);
    q.Unquoted? && n > 0 && startsToken && (|s| == n || IsSpace(s[n]))
  }

  /** Characters taken together at the front: an escape pair outside single
      quotes, otherwise one. */
  function Taken(s: string, q: Quotes): (n: nat)
    requires s != ""
    ensures 1 <= n <= |s|
  {
    if s[0] == '\\' && !q.Single? && |s| > 1 then 2 else 1
  }

  function NextQuotes(c: char, q: Quotes): Quotes {
    if c == '\'' && !q.Double? then (if q.Single? then Unquoted else Single)
    else if c == '"' && !q.Single? then (if q.Double? then Unquoted else Double)
    else q
  }

  /** The commands in `s`, of which `seg` belongs to the current one. */
  function Chain(s: string, seg: string, startsToken: bool, q: Quotes): seq<string>
    decreases |s|
  {
    if s == "" then PushSegment(seg)
    else if AtSeparator(s, startsToken, q) then
      PushSegment(seg) + Chain(s[SeparatorLength(s)..], "", false, q)
    else
      var n := Taken(s, q);
      Chain(s[n..], seg + s[..n], IsSpace(s[n - 1]), NextQuotes(s[0], q))
  }

  function ChainedCommands(s: string): seq<string> { Chain(s, "", true, Unquoted) }

  /** `split_chained_commands`. */
  method SplitChainedCommands(command: string) returns (commands: seq<string>)
    ensures commands == ChainedCommands(command)
  {
    hide AtSeparator, Taken, SeparatorLength, PushSegment, Chain, IsSpace, NextQuotes;
    commands := [];
    var segStart: nat, i: nat := 0, 0;
    var startsToken, q := true, Unquoted;
    assert command[0..] == command && command[0..0] == "";
    assert [] + ChainedCommands(command) == ChainedCommands(command);
    while i < |command|
      invariant segStart <= i <= |command|
      invariant startsToken == (i == 0 || IsSpace(command[i - 1]))
      invariant ChainedCommands(command) == commands + Chain(command[i..], command[segStart..i], startsToken, q)
    {
      var taken;
      if AtSeparator(command[i..], startsToken, q) {
        SeparatorCuts(command, segStart, i, startsToken, q, commands);
        commands := commands + PushSegment(command[segStart..i]);
        taken := SeparatorLength(command[i..]);
        segStart := i + taken;
      } else {
        CharactersJoin(command, segStart, i, startsToken, q);
        taken := Taken(command[i..], q);
        q := NextQuotes(command[i], q);
      }
      i := i + taken;
      startsToken := IsSpace(command[i - 1]);
    }
    ChainEnds(command[segStart..i], startsToken, q);
    assert command[i..] == "" && command[segStart..i] == command[segStart..];
    commands := commands + PushSegment(command[segStart..]);
  }

  lemma ChainUnfolds(s: string, seg: string, startsToken: bool, q: Quotes)
    requires s != ""
    ensures Chain(s, seg, startsToken, q) ==
              if AtSeparator(s, startsToken, q)
              then PushSegment(seg) + Chain(s[SeparatorLength(s)..], "", false, q)
              else var n := Taken(s, q);
                   Chain(s[n..], seg + s[..n], IsSpace(s[n - 1]), NextQuotes(s[0], q))
  {
    hide AtSeparator, Taken, SeparatorLength, PushSegment;
  }

  /** At a separator the segment read so far is pushed and the next one begins. */
  lemma SeparatorCuts(command: string, segStart: nat, i: nat, startsToken: bool, q: Quotes, before: seq<string>)
    requires segStart <= i < |command| && AtSeparator(command[i..], startsToken, q)
    ensures var next := i + SeparatorLength(command[i..]);
            && i < next <= |command| && !IsSpace(command[next - 1])
            && before + Chain(command[i..], command[segStart..i], startsToken, q)
               == (before + PushSegment(command[segStart..i])) + Chain(command[next..], command[next..next], false, q)
  {
    hide AtSeparator, SeparatorLength, PushSegment, Chain, IsSpace;
    var here := command[i..];
    ChainUnfolds(here, command[segStart..i], startsToken, q);
    SeparatorShape(here, startsToken, q);
    var n := SeparatorLength(here);
    assert here[n..] == command[i + n..] && here[n - 1] == command[i + n - 1] && command[i + n..i + n] == "";
    Associate(before, PushSegment(command[segStart..i]), Chain(command[i + n..], "", false, q));
  }

  /** Anything else is read into the segment. */
  lemma CharactersJoin(command: string, segStart: nat, i: nat, startsToken: bool, q: Quotes)
    requires segStart <= i < |command| && !AtSeparator(command[i..], startsToken, q)
    ensures var next := i + Taken(command[i..], q);
            && i < next <= |command|
            && Chain(command[i..], command[segStart..i], startsToken, q)
               == Chain(command[next..], command[segStart..next], IsSpace(command[next - 1]), NextQuotes(command[i], q))
  {
    hide AtSeparator, Taken, Chain, IsSpace, NextQuotes;
    var here := command[i..];
    ChainUnfolds(here, command[segStart..i], startsToken, q);
    var n := Taken(here, q);
    assert here[n..] == command[i + n..] && here[n - 1] == command[i + n - 1];
    assert command[segStart..i] + here[..n] == command[segStart..i + n];
  }

  lemma ChainEnds(seg: string, startsToken: bool, q: Quotes)
    ensures Chain("", seg, startsToken, q) == PushSegment(seg)
  {}

  /** A separator ends in a semicolon, so what follows does not start a token. */
  lemma SeparatorShape(s: string, startsToken: bool, q: Quotes)
    requires AtSeparator(s, startsToken, q)
    ensures SeparatorLength(s) > 0 && s[SeparatorLength(s) - 1] == ';' && !IsSpace(';')
  {}

  // ----- arguments -----

  /** The arguments in `s`; `current` and `quoted` describe the one being read. */
  function Tokens(s: string, current: string, quoted: bool, q: Quotes): seq<string>
    decreases |s|
  {
    if s == "" then (if current != "" || quoted then [current] else [])
    else if q.Single? then
      if s[0] == '\'' then Tokens(s[1..], current, quoted, Unquoted)
      else Tokens(s[1..], current + [s[0]], quoted, q)
    else if s[0] == '\\' && q.Double? && |s| > 1 && (s[1] == '"' || s[1] == '\\') then
      Tokens(s[2..], current + [s[1]], quoted, q)
    else if s[0] == '"' then Tokens(s[1..], current, true, if q.Double? then Unquoted else Double)
    else if s[0] == '\'' && !q.Double? then Tokens(s[1..], current, true, Single)
    else if IsSpace(s[0]) && !q.Double? then
      (if current != "" || quoted then [current] else []) + Tokens(s[1..], "", false, q)
    else Tokens(s[1..], current + [s[0]], quoted, q)
  }

  function Arguments(s: string): seq<string> { Tokens(s, "", false, Unquoted) }

  /** `parse_command_line`. */
  method ParseCommandLine(line: string) returns (args: seq<string>)
    ensures args == Arguments(line)
  {
    hide IsSpace;
    args := [];
    var current := "";
    var q, quoted := Unquoted, false;
    var i: nat := 0;
    assert line[0..] == line;
    while i < |line|
      invariant i <= |line|
      invariant Arguments(line) == args + Tokens(line[i..], current, quoted, q)
    {
      var c := line[i];
      ghost var here := line[i..];
      assert here[0] == c && here[1..] == line[i + 1..];
      if q.Single? {
        if c == '\'' { q := Unquoted; } else { current := current + [c]; }
      } else if c == '\\' && q.Double? {
        if i + 1 < |line| && (line[i + 1] == '"' || line[i + 1] == '\\') {
          current := current + [line[i + 1]];
          assert here[1] == line[i + 1] && here[2..] == line[i + 2..];
          i := i + 1;
        } else {
          current := current + [c];
        }
      } else if c == '"' {
        q, quoted := if q.Double? then Unquoted else Double, true;
      } else if c == '\'' && !q.Double? {
        q, quoted := Single, true;
      } else if IsSpace(c) && !q.Double? {
        if current != "" || quoted { args, current := args + [current], ""; }
        quoted := false;
      } else {
        current := current + [c];
      }
      i := i + 1;
    }
    if current != "" || quoted { args := args + [current]; }
  }

  // ----- rendering -----

  function Escape(arg: string): string {
    if arg == "" then ""
    else (if arg[0] == '"' || arg[0] == '\\' then ['\\', arg[0]] else [arg[0]]) + Escape(arg[1..])
  }

  function Quote(arg: string): string { "\"" + (Escape(arg) + "\"") }

  /** A command, every argument in double quotes. */
  function RenderCommand(args: seq<string>): string {
    if args == [] then "" else if |args| == 1 then Quote(args[0])
    else Quote(args[0]) + (" " + RenderCommand(args[1..]))
  }

  function RenderLine(cmds: seq<seq<string>>): string {
    if cmds == [] then "" else if |cmds| == 1 then RenderCommand(cmds[0])
    else RenderCommand(cmds[0]) + (" ; " + RenderLine(cmds[1..]))
  }

  function RenderAll(cmds: seq<seq<string>>): (r: seq<string>)
    ensures |r| == |cmds|
  {
    if cmds == [] then [] else [RenderCommand(cmds[0])] + RenderAll(cmds[1..])
  }

  function ArgumentsOfAll(commands: seq<string>): (r: seq<seq<string>>)
    ensures |r| == |commands|
    ensures forall i :: 0 <= i < |r| ==> r[i] == Arguments(commands[i])
  {
    if commands == [] then [] else [Arguments(commands[0])] + ArgumentsOfAll(commands[1..])
  }

  // ----- chain splitting sees quoted arguments as data -----

  lemma ChainTakes(pre: string, rest: string, seg: string, startsToken: bool, q: Quotes)
    requires pre != "" && Taken(pre + rest, q) == |pre| && !AtSeparator(pre + rest, startsToken, q)
    ensures Chain(pre + rest, seg, startsToken, q)
         == Chain(rest, seg + pre, IsSpace(pre[|pre| - 1]), NextQuotes(pre[0], q))
  {
    hide Taken, AtSeparator, PushSegment;
    var s := pre + rest;
    assert s[|pre|..] == rest && s[..|pre|] == pre;
  }

  lemma {:induction false} ChainSkipsEscaped(arg: string, rest: string, seg: string, startsToken: bool)
    ensures Chain(Escape(arg) + ("\"" + rest), seg, startsToken, Double)
         == Chain(rest, seg + (Escape(arg) + "\""), false, Unquoted)
    decreases |arg|
  {
    hide Chain;
    if arg == "" {
      ChainTakes("\"", rest, seg, startsToken, Double);
      assert Escape(arg) + ("\"" + rest) == "\"" + rest && Escape(arg) + "\"" == "\"";
    } else {
      var pre := if arg[0] == '"' || arg[0] == '\\' then ['\\', arg[0]] else [arg[0]];
      var tail := Escape(arg[1..]) + ("\"" + rest);
      ChainTakes(pre, tail, seg, startsToken, Double);
      ChainSkipsEscaped(arg[1..], rest, seg + pre, IsSpace(pre[|pre| - 1]));
      Associate(pre, Escape(arg[1..]), "\"" + rest);
      Associate(seg, pre, Escape(arg[1..]) + "\"");
      Associate(pre, Escape(arg[1..]), "\"");
    }
  }

  lemma ChainSkipsQuoted(arg: string, rest: string, seg: string, startsToken: bool)
    ensures Chain(Quote(arg) + rest, seg, startsToken, Unquoted) == Chain(rest, seg + Quote(arg), false, Unquoted)
  {
    hide Chain;
    var tail := Escape(arg) + ("\"" + rest);
    ChainTakes("\"", tail, seg, startsToken, Unquoted);
    ChainSkipsEscaped(arg, rest, seg + "\"", false);
    Associate(seg, "\"", Escape(arg) + "\"");
    Associate("\"", Escape(arg) + "\"", rest);
    Associate(Escape(arg), "\"", rest);
  }

  lemma {:induction false} ChainSkipsCommand(args: seq<string>, rest: string, seg: string, startsToken: bool)
    requires args != []
    ensures Chain(RenderCommand(args) + rest, seg, startsToken, Unquoted)
         == Chain(rest, seg + RenderCommand(args), false, Unquoted)
    decreases |args|
  {
    hide Chain, Quote;
    var first := Quote(args[0]);
    if |args| == 1 {
      ChainSkipsQuoted(args[0], rest, seg, startsToken);
    } else {
      var more := RenderCommand(args[1..]);
      var tail := " " + (more + rest);
      ChainSkipsQuoted(args[0], tail, seg, startsToken);
      ChainTakes(" ", more + rest, seg + first, false, Unquoted);
      ChainSkipsCommand(args[1..], rest, seg + first + " ", true);
      Associate(first, " " + more, rest);
      Associate(" ", more, rest);
      Associate(seg, first, " " + more);
      Associate(seg + first, " ", more);
    }
  }

  lemma RenderedIsTrimmed(args: seq<string>)
    requires args != []
    ensures var r := RenderCommand(args); r != "" && r[0] == '"' && r[|r| - 1] == '"'
    decreases |args|
  {
    if |args| > 1 { RenderedIsTrimmed(args[1..]); }
  }

  lemma SegmentIsCommand(lead: string, args: seq<string>, trail: string)
    requires args != [] && (lead == "" || lead == " ") && (trail == "" || trail == " ")
    ensures PushSegment(lead + RenderCommand(args) + trail) == [RenderCommand(args)]
  {
    RenderedIsTrimmed(args);
    TrimKeeps(lead, RenderCommand(args), trail);
  }

  /** A separator, bare or escaped, ends a segment; one space is left on either side. */
  lemma ChainCuts(separator: string, rest: string, seg: string)
    requires separator == ";" || separator == "\\;"
    ensures Chain(" " + (separator + (" " + rest)), seg, false, Unquoted)
         == PushSegment(seg + " ") + Chain(rest, " ", true, Unquoted)
  {
    hide Chain, PushSegment;
    ChainTakes(" ", separator + (" " + rest), seg, false, Unquoted);
    ChainSeparates(separator, " " + rest, seg + " ");
    ChainTakes(" ", rest, "", false, Unquoted);
    assert "" + " " == " ";
  }

  lemma ChainSeparates(separator: string, rest: string, seg: string)
    requires separator == ";" || separator == "\\;"
    requires rest != "" && IsSpace(rest[0])
    ensures Chain(separator + rest, seg, true, Unquoted) == PushSegment(seg) + Chain(rest, "", false, Unquoted)
  {
    hide PushSegment;
    var n := |separator|;
    assert (separator + rest)[n..] == rest;
    assert SeparatorLength(separator + rest) == n;
    assert AtSeparator(separator + rest, true, Unquoted);
  }

  lemma {:induction false} ChainRecovers(cmds: seq<seq<string>>, lead: string)
    requires forall c <- cmds :: c != []
    requires lead == "" || lead == " "
    ensures Chain(RenderLine(cmds), lead, true, Unquoted) == RenderAll(cmds)
    decreases |cmds|
  {
    hide RenderCommand, PushSegment, AtSeparator;
    if cmds == [] {
      assert PushSegment(lead) == [] by { BlankSegment(lead); }
    } else {
      hide Chain;
      var first := RenderCommand(cmds[0]);
      assert cmds[0] in cmds && forall c :: c in cmds[1..] ==> c in cmds;
      if |cmds| == 1 {
        ChainSkipsCommand(cmds[0], "", lead, true);
        ChainEnds(lead + first, false, Unquoted);
        SegmentIsCommand(lead, cmds[0], "");
        assert first + "" == first && lead + first + "" == lead + first;
      } else {
        var more := RenderLine(cmds[1..]);
        ChainSkipsCommand(cmds[0], " ; " + more, lead, true);
        assert " ; " + more == " " + (";" + (" " + more));
        ChainCuts(";", more, lead + first);
        SegmentIsCommand(lead, cmds[0], " ");
        ChainRecovers(cmds[1..], " ");
      }
    }
  }

  lemma BlankSegment(lead: string)
    requires lead == "" || lead == " "
    ensures PushSegment(lead) == []
  {
    TrimStartSkips(lead, "", IsSpace);
    assert lead + "" == lead;
  }

  // ----- tokenizing undoes quoting -----

  lemma {:induction false} TokensUnescape(arg: string, rest: string, current: string)
    ensures Tokens(Escape(arg) + ("\"" + rest), current, true, Double) == Tokens(rest, current + arg, true, Unquoted)
    decreases |arg|
  {
    if arg == "" {
      assert Escape(arg) + ("\"" + rest) == "\"" + rest && ("\"" + rest)[1..] == rest && current + arg == current;
    } else {
      var tail := Escape(arg[1..]) + ("\"" + rest);
      TokensUnescape(arg[1..], rest, current + [arg[0]]);
      assert current + [arg[0]] + arg[1..] == current + arg;
      if arg[0] == '"' || arg[0] == '\\' {
        var s := ['\\', arg[0]] + tail;
        assert Escape(arg) + ("\"" + rest) == s && s[2..] == tail;
      } else {
        var s := [arg[0]] + tail;
        assert Escape(arg) + ("\"" + rest) == s && s[1..] == tail;
      }
    }
  }

  lemma TokensUnquote(arg: string, rest: string)
    ensures Tokens(Quote(arg) + rest, "", false, Unquoted) == Tokens(rest, arg, true, Unquoted)
  {
    hide Escape;
    var tail := Escape(arg) + ("\"" + rest);
    TokensUnescape(arg, rest, "");
    assert Quote(arg) + rest == "\"" + tail;
    TokensOpen(tail, "", false);
    assert "" + arg == arg;
  }

  lemma TokensOpen(tail: string, current: string, quoted: bool)
    ensures Tokens("\"" + tail, current, quoted, Unquoted) == Tokens(tail, current, true, Double)
    ensures Tokens("'" + tail, current, quoted, Unquoted) == Tokens(tail, current, true, Single)
  {
    assert ("\"" + tail)[1..] == tail && ("'" + tail)[1..] == tail;
  }

  lemma TokensSpace(rest: string, arg: string)
    ensures Tokens(" " + rest, arg, true, Unquoted) == [arg] + Tokens(rest, "", false, Unquoted)
  {
    assert (" " + rest)[1..] == rest;
  }

  lemma {:induction false} ArgumentsRecover(args: seq<string>)
    ensures Arguments(RenderCommand(args)) == args
    decreases |args|
  {
    if args != [] {
      hide Quote;
      if |args| == 1 {
        TokensUnquote(args[0], "");
        assert Quote(args[0]) + "" == Quote(args[0]);
        assert Tokens("", args[0], true, Unquoted) == [args[0]];
      } else {
        hide Tokens;
        var more := RenderCommand(args[1..]);
        TokensUnquote(args[0], " " + more);
        TokensSpace(more, args[0]);
        ArgumentsRecover(args[1..]);
      }
    }
  }

  // ----- the round trip -----

  function ParseLine(s: string): seq<seq<string>> { ArgumentsOfAll(ChainedCommands(s)) }

  lemma {:induction false} ArgumentsRecoverAll(cmds: seq<seq<string>>)
    ensures ArgumentsOfAll(RenderAll(cmds)) == cmds
  {
    if cmds != [] {
      ArgumentsRecover(cmds[0]);
      ArgumentsRecoverAll(cmds[1..]);
      assert RenderAll(cmds)[1..] == RenderAll(cmds[1..]);
    }
  }

  lemma {:induction false} TokensNotEmpty(s: string, current: string, quoted: bool, q: Quotes)
    requires current != "" || quoted
    ensures Tokens(s, current, quoted, q) != []
    decreases |s|
  {
    if s != "" {
      if q.Single? {
        if s[0] == '\'' { TokensNotEmpty(s[1..], current, quoted, Unquoted); }
        else { TokensNotEmpty(s[1..], current + [s[0]], quoted, q); }
      } else if s[0] == '\\' && q.Double? && |s| > 1 && (s[1] == '"' || s[1] == '\\') {
        TokensNotEmpty(s[2..], current + [s[1]], quoted, q);
      } else if s[0] == '"' {
        TokensNotEmpty(s[1..], current, true, if q.Double? then Unquoted else Double);
      } else if s[0] == '\'' && !q.Double? {
        TokensNotEmpty(s[1..], current, true, Single);
      } else if !IsSpace(s[0]) || q.Double? {
        TokensNotEmpty(s[1..], current + [s[0]], quoted, q);
      }
    }
  }

  /** A command that does not start with white space has an argument. */
  lemma SomeArgument(s: string)
    requires s != "" && !IsSpace(s[0])
    ensures Arguments(s) != []
  {
    if s[0] == '"' { TokensNotEmpty(s[1..], "", true, Double); }
    else if s[0] == '\'' { TokensNotEmpty(s[1..], "", true, Single); }
    else { TokensNotEmpty(s[1..], "" + [s[0]], false, Unquoted); }
  }

  lemma TrimStarts(s: string)
    ensures Trim(s) != "" ==> !IsSpace(Trim(s)[0])
  {
    TrimStartStarts(s, IsSpace);
    TrimEndIsPrefix(TrimStart(s, IsSpace), IsSpace);
  }

  lemma {:induction false} ChainedNotBlank(s: string, seg: string, startsToken: bool, q: Quotes)
    ensures forall c <- Chain(s, seg, startsToken, q) :: c != "" && !IsSpace(c[0])
    decreases |s|
  {
    hide AtSeparator, Taken, Trim;
    TrimStarts(seg);
    if s != "" {
      if AtSeparator(s, startsToken, q) {
        var n := SeparatorLength(s);
        SeparatorShape(s, startsToken, q);
        ChainedNotBlank(s[n..], "", false, q);
      } else {
        var n := Taken(s, q);
        ChainedNotBlank(s[n..], seg + s[..n], IsSpace(s[n - 1]), NextQuotes(s[0], q));
      }
    }
  }

  /** Quoting, joining, splitting and tokenizing give back the argument lists,
      whatever the arguments hold, exactly when no list is empty. */
  lemma CommandLineRoundTrip(cmds: seq<seq<string>>)
    ensures ParseLine(RenderLine(cmds)) == cmds <==> forall c <- cmds :: c != []
  {
    var line := RenderLine(cmds);
    if forall c <- cmds :: c != [] {
      ChainRecovers(cmds, "");
      ArgumentsRecoverAll(cmds);
    } else {
      ChainedNotBlank(line, "", true, Unquoted);
      var found := ChainedCommands(line);
      forall i | 0 <= i < |found| ensures ParseLine(line)[i] != [] {
        assert found[i] in found;
        SomeArgument(found[i]);
      }
      var c :| c in cmds && c == [];
    }
  }

  // ----- lines as people write them -----

  /** Part of an argument: bare characters, single quotes, double quotes with escapes,
      or double quotes around text that needs none, such as a path. */
  datatype Part = Bare(text: string) | InSingles(text: string) | InDoubles(text: string) | AsPath(text: string)

  type Word = seq<Part>

  function PartText(p: Part): string {
    match p
    case Bare(text) => text
    case InSingles(text) => "'" + text + "'"
    case InDoubles(text) => Quote(text)
    case AsPath(text) => "\"" + text + "\""
  }

  /** Bare text holds no blank, quote or backslash; single quotes hold no other one; a
      path holds no double quote, and each backslash in it has another character after it. */
  predicate PartFits(p: Part) {
    match p
    case Bare(text) => text != "" && forall c <- text :: !IsSpace(c) && c != '"' && c != '\'' && c != '\\'
    case InSingles(text) => '\'' !in text
    case InDoubles(text) => true
    case AsPath(text) => '"' !in text && LoneBackslashes(text)
  }

  predicate LoneBackslashes(text: string) {
    forall i :: 0 <= i < |text| && text[i] == '\\' ==> i + 1 < |text| && text[i + 1] != '\\'
  }

  function WordText(word: Word): string {
    if word == [] then "" else PartText(word[0]) + WordText(word[1..])
  }

  /** The argument a word stands for. */
  function Meant(word: Word): string {
    if word == [] then "" else word[0].text + Meant(word[1..])
  }

  function Quoted(word: Word): bool { exists p <- word :: !p.Bare? }

  /** A word has a part, and is not the bare separator. */
  predicate WordFits(word: Word) {
    word != [] && (forall p <- word :: PartFits(p)) && WordText(word) != ";"
  }

  function CommandText(words: seq<Word>): string {
    if words == [] then "" else if |words| == 1 then WordText(words[0])
    else WordText(words[0]) + (" " + CommandText(words[1..]))
  }

  function MeantAll(words: seq<Word>): seq<string> {
    if words == [] then [] else [Meant(words[0])] + MeantAll(words[1..])
  }

  // ----- tokens -----

  lemma {:induction false} BareIsRead(text: string, rest: string, current: string, quoted: bool)
    requires forall c <- text :: !IsSpace(c) && c != '"' && c != '\''
    ensures Tokens(text + rest, current, quoted, Unquoted) == Tokens(rest, current + text, quoted, Unquoted)
    decreases |text|
  {
    if text == "" {
      assert text + rest == rest && current + text == current;
    } else {
      assert text[0] in text && forall c :: c in text[1..] ==> c in text;
      BareIsRead(text[1..], rest, current + [text[0]], quoted);
      assert (text + rest)[1..] == text[1..] + rest;
      assert current + [text[0]] + text[1..] == current + text;
    }
  }

  lemma {:induction false} SinglesAreRead(text: string, rest: string, current: string)
    requires '\'' !in text
    ensures Tokens(text + ("'" + rest), current, true, Single) == Tokens(rest, current + text, true, Unquoted)
    decreases |text|
  {
    if text == "" {
      assert text + ("'" + rest) == "'" + rest && ("'" + rest)[1..] == rest && current + text == current;
    } else {
      assert text[0] in text;
      SinglesAreRead(text[1..], rest, current + [text[0]]);
      assert (text + ("'" + rest))[1..] == text[1..] + ("'" + rest);
      assert current + [text[0]] + text[1..] == current + text;
    }
  }

  lemma {:induction false} PathIsRead(text: string, rest: string, current: string)
    requires '"' !in text && LoneBackslashes(text)
    ensures Tokens(text + ("\"" + rest), current, true, Double) == Tokens(rest, current + text, true, Unquoted)
    decreases |text|
  {
    var s := text + ("\"" + rest);
    if text == "" {
      assert s == "\"" + rest && s[1..] == rest && current + text == current;
    } else {
      assert text[0] in text;
      PathIsRead(text[1..], rest, current + [text[0]]);
      assert s[1..] == text[1..] + ("\"" + rest);
      assert current + [text[0]] + text[1..] == current + text;
      if text[0] == '\\' { assert s[1] == text[1] && text[1] in text; }
    }
  }

  lemma PartIsRead(p: Part, rest: string, current: string, quoted: bool)
    requires PartFits(p)
    ensures Tokens(PartText(p) + rest, current, quoted, Unquoted)
         == Tokens(rest, current + p.text, quoted || !p.Bare?, Unquoted)
  {
    hide Tokens, Escape;
    match p
    case Bare(text) =>
      BareIsRead(text, rest, current, quoted);
    case InSingles(text) =>
      var tail := text + ("'" + rest);
      assert PartText(p) + rest == "'" + tail;
      TokensOpen(tail, current, quoted);
      SinglesAreRead(text, rest, current);
    case InDoubles(text) =>
      var tail := Escape(text) + ("\"" + rest);
      assert PartText(p) + rest == "\"" + tail;
      TokensOpen(tail, current, quoted);
      TokensUnescape(text, rest, current);
    case AsPath(text) =>
      var tail := text + ("\"" + rest);
      assert PartText(p) + rest == "\"" + tail;
      TokensOpen(tail, current, quoted);
      PathIsRead(text, rest, current);
  }

  lemma {:induction false} WordIsRead(word: Word, rest: string, current: string, quoted: bool)
    requires forall p <- word :: PartFits(p)
    ensures Tokens(WordText(word) + rest, current, quoted, Unquoted)
         == Tokens(rest, current + Meant(word), quoted || Quoted(word), Unquoted)
    decreases |word|
  {
    hide Tokens, PartText, PartFits;
    if word == [] {
      assert WordText(word) + rest == rest && current + Meant(word) == current;
    } else {
      var p := word[0];
      assert p in word && forall x :: x in word <==> x == p || x in word[1..];
      PartIsRead(p, WordText(word[1..]) + rest, current, quoted);
      WordIsRead(word[1..], rest, current + p.text, quoted || !p.Bare?);
      Associate(PartText(p), WordText(word[1..]), rest);
      Associate(current, p.text, Meant(word[1..]));
    }
  }

  lemma WordIsSomething(word: Word)
    requires WordFits(word)
    ensures Meant(word) != "" || Quoted(word)
  {
    if !Quoted(word) { assert word[0] in word; }
  }

  lemma WordEnds(rest: string, arg: string, quoted: bool)
    requires arg != "" || quoted
    ensures Tokens(" " + rest, arg, quoted, Unquoted) == [arg] + Tokens(rest, "", false, Unquoted)
    ensures Tokens("", arg, quoted, Unquoted) == [arg]
  {
    assert (" " + rest)[1..] == rest;
  }

  /** The words of a command are read as the arguments they stand for, however each part
      is quoted. */
  lemma {:induction false} WordsAreRead(words: seq<Word>)
    requires forall w <- words :: WordFits(w)
    ensures Arguments(CommandText(words)) == MeantAll(words)
    decreases |words|
  {
    if words != [] {
      hide Tokens, WordFits, Meant, WordText, Quoted;
      assert words[0] in words && forall w :: w in words[1..] ==> w in words;
      var w, more := words[0], CommandText(words[1..]);
      WordParts(w);
      WordIsSomething(w);
      assert "" + Meant(w) == Meant(w);
      WordEnds(more, Meant(w), Quoted(w));
      if |words| == 1 {
        WordIsRead(w, "", "", false);
        assert WordText(w) + "" == WordText(w) && MeantAll(words[1..]) == [];
      } else {
        WordIsRead(w, " " + more, "", false);
        WordsAreRead(words[1..]);
      }
    } else {
      assert Arguments("") == [];
    }
  }

  lemma WordParts(word: Word)
    requires WordFits(word)
    ensures forall p <- word :: PartFits(p)
  {}

  // ----- chains -----

  lemma {:induction false} ChainKeepsBare(text: string, rest: string, seg: string)
    requires forall c <- text :: !IsSpace(c) && c != '"' && c != '\'' && c != '\\'
    ensures Chain(text + rest, seg, false, Unquoted) == Chain(rest, seg + text, false, Unquoted)
    decreases |text|
  {
    hide Chain;
    if text == "" {
      assert text + rest == rest && seg + text == seg;
    } else {
      assert text[0] in text && forall c :: c in text[1..] ==> c in text;
      assert text + rest == [text[0]] + (text[1..] + rest);
      ChainTakes([text[0]], text[1..] + rest, seg, false, Unquoted);
      ChainKeepsBare(text[1..], rest, seg + [text[0]]);
      assert seg + [text[0]] + text[1..] == seg + text;
    }
  }

  lemma {:induction false} ChainKeepsSingles(text: string, rest: string, seg: string, startsToken: bool)
    requires '\'' !in text
    ensures Chain(text + ("'" + rest), seg, startsToken, Single) == Chain(rest, seg + (text + "'"), false, Unquoted)
    decreases |text|
  {
    hide Chain;
    if text == "" {
      ChainTakes("'", rest, seg, startsToken, Single);
      assert text + ("'" + rest) == "'" + rest && text + "'" == "'";
    } else {
      assert text[0] in text;
      var tail := text[1..] + ("'" + rest);
      assert text + ("'" + rest) == [text[0]] + tail;
      ChainTakes([text[0]], tail, seg, startsToken, Single);
      ChainKeepsSingles(text[1..], rest, seg + [text[0]], IsSpace(text[0]));
      assert seg + [text[0]] + (text[1..] + "'") == seg + (text + "'");
    }
  }

  /** An escape pair is taken whole, so a backslash and the next character go together. */
  lemma {:induction false} ChainKeepsPath(text: string, rest: string, seg: string, startsToken: bool)
    requires '"' !in text && LoneBackslashes(text)
    ensures Chain(text + ("\"" + rest), seg, startsToken, Double)
         == Chain(rest, seg + (text + "\""), false, Unquoted)
    decreases |text|
  {
    hide Chain;
    if text == "" {
      ChainTakes("\"", rest, seg, startsToken, Double);
      assert text + ("\"" + rest) == "\"" + rest && text + "\"" == "\"";
    } else {
      assert text[0] in text;
      var n := if text[0] == '\\' then 2 else 1;
      var tail := text[n..] + ("\"" + rest);
      assert text + ("\"" + rest) == text[..n] + tail;
      ChainTakes(text[..n], tail, seg, startsToken, Double);
      ChainKeepsPath(text[n..], rest, seg + text[..n], IsSpace(text[n - 1]));
      assert seg + text[..n] + (text[n..] + "\"") == seg + (text + "\"");
    }
  }

  lemma ChainKeepsPart(p: Part, rest: string, seg: string, startsToken: bool)
    requires PartFits(p) && !AtSeparator(PartText(p) + rest, startsToken, Unquoted)
    ensures Chain(PartText(p) + rest, seg, startsToken, Unquoted) == Chain(rest, seg + PartText(p), false, Unquoted)
  {
    hide Chain;
    match p
    case Bare(text) =>
      assert text[0] in text && forall c :: c in text[1..] ==> c in text;
      assert text + rest == [text[0]] + (text[1..] + rest);
      ChainTakes([text[0]], text[1..] + rest, seg, startsToken, Unquoted);
      ChainKeepsBare(text[1..], rest, seg + [text[0]]);
      assert seg + [text[0]] + text[1..] == seg + text;
    case InSingles(text) =>
      var tail := text + ("'" + rest);
      assert PartText(p) + rest == "'" + tail;
      ChainTakes("'", tail, seg, startsToken, Unquoted);
      ChainKeepsSingles(text, rest, seg + "'", false);
      assert seg + "'" + (text + "'") == seg + PartText(p);
    case InDoubles(text) =>
      ChainSkipsQuoted(text, rest, seg, startsToken);
    case AsPath(text) =>
      var tail := text + ("\"" + rest);
      assert PartText(p) + rest == "\"" + tail;
      ChainTakes("\"", tail, seg, startsToken, Unquoted);
      ChainKeepsPath(text, rest, seg + "\"", false);
      assert seg + "\"" + (text + "\"") == seg + PartText(p);
  }

  lemma {:induction false} ChainKeepsParts(word: Word, rest: string, seg: string)
    requires forall p <- word :: PartFits(p)
    ensures Chain(WordText(word) + rest, seg, false, Unquoted) == Chain(rest, seg + WordText(word), false, Unquoted)
    decreases |word|
  {
    hide Chain, PartText, PartFits, SeparatorLength;
    if word == [] {
      assert WordText(word) + rest == rest && seg + WordText(word) == seg;
    } else {
      var p, more := word[0], WordText(word[1..]);
      assert p in word && forall x :: x in word[1..] ==> x in word;
      ChainKeepsPart(p, more + rest, seg, false);
      ChainKeepsParts(word[1..], rest, seg + PartText(p));
      Associate(PartText(p), more, rest);
      Associate(seg, PartText(p), more);
    }
  }

  lemma ChainKeepsWord(word: Word, rest: string, seg: string, startsToken: bool)
    requires WordFits(word) && (rest == "" || rest[0] == ' ')
    ensures Chain(WordText(word) + rest, seg, startsToken, Unquoted)
         == Chain(rest, seg + WordText(word), false, Unquoted)
  {
    hide Chain, PartText;
    var p, more := word[0], WordText(word[1..]);
    assert p in word && forall x :: x in word[1..] ==> x in word;
    WordIsNoSeparator(word, rest, startsToken);
    Associate(PartText(p), more, rest);
    ChainKeepsPart(p, more + rest, seg, startsToken);
    ChainKeepsParts(word[1..], rest, seg + PartText(p));
    Associate(seg, PartText(p), more);
  }

  lemma WordIsNoSeparator(word: Word, rest: string, startsToken: bool)
    requires WordFits(word) && (rest == "" || rest[0] == ' ')
    ensures !AtSeparator(WordText(word) + rest, startsToken, Unquoted)
  {
    var s, t := WordText(word) + rest, WordText(word);
    FirstOfWord(word);
    assert s[0] == t[0];
    if |t| > 1 {
      assert s[1] == t[1];
      if t[0] == ';' { SecondOfWord(word); }
    }
  }

  /** A word does not begin with a backslash or a blank. */
  lemma FirstOfWord(word: Word)
    requires WordFits(word)
    ensures var t := WordText(word); t != "" && t[0] != '\\' && !IsSpace(t[0])
  {
    var p := word[0];
    assert p in word;
    assert PartText(p) != "" && WordText(word)[0] == PartText(p)[0];
    if p.Bare? { assert p.text[0] in p.text; }
  }

  lemma SecondOfWord(word: Word)
    requires WordFits(word) && |WordText(word)| > 1 && WordText(word)[0] == ';'
    ensures !IsSpace(WordText(word)[1])
  {
    var p := word[0];
    assert p in word;
    if |p.text| > 1 {
      assert WordText(word)[1] == p.text[1] && p.text[1] in p.text;
    } else {
      var q := word[1];
      assert q in word;
      assert WordText(word[1..])[0] == PartText(q)[0];
      assert WordText(word)[1] == PartText(q)[0];
      if q.Bare? { assert q.text[0] in q.text; }
    }
  }

  lemma {:induction false} ChainKeepsCommand(words: seq<Word>, rest: string, seg: string, startsToken: bool)
    requires words != [] && (forall w <- words :: WordFits(w)) && (rest == "" || rest[0] == ' ')
    ensures Chain(CommandText(words) + rest, seg, startsToken, Unquoted)
         == Chain(rest, seg + CommandText(words), false, Unquoted)
    decreases |words|
  {
    hide Chain, WordFits, WordText;
    assert words[0] in words && forall w :: w in words[1..] ==> w in words;
    var first := WordText(words[0]);
    if |words| == 1 {
      ChainKeepsWord(words[0], rest, seg, startsToken);
    } else {
      var more := CommandText(words[1..]);
      assert (first + (" " + more)) + rest == first + (" " + (more + rest));
      ChainKeepsWord(words[0], " " + (more + rest), seg, startsToken);
      ChainTakes(" ", more + rest, seg + first, false, Unquoted);
      ChainKeepsCommand(words[1..], rest, seg + first + " ", true);
      assert (seg + first + " ") + more == seg + (first + (" " + more));
    }
  }

  lemma {:induction false} LastOfWord(word: Word)
    requires word != [] && forall p <- word :: PartFits(p)
    ensures var t := WordText(word); t != "" && !IsSpace(t[|t| - 1])
  {
    var p := word[0];
    assert p in word && forall x :: x in word[1..] ==> x in word;
    if |word| > 1 {
      LastOfWord(word[1..]);
    } else {
      assert WordText(word[1..]) == "";
      assert WordText(word) == PartText(p);
      if p.Bare? { assert p.text[|p.text| - 1] in p.text; }
    }
  }

  lemma {:induction false} CommandIsTrimmed(words: seq<Word>)
    requires words != [] && forall w <- words :: WordFits(w)
    ensures var t := CommandText(words); t != "" && !IsSpace(t[0]) && !IsSpace(t[|t| - 1])
  {
    hide WordText;
    assert words[0] in words && forall w :: w in words[1..] ==> w in words;
    FirstOfWord(words[0]);
    LastOfWord(words[0]);
    if |words| > 1 { CommandIsTrimmed(words[1..]); }
  }

  /** Commands with a separator between each two. */
  function LineText(commands: seq<seq<Word>>, separator: string): string {
    if commands == [] then "" else if |commands| == 1 then CommandText(commands[0])
    else CommandText(commands[0]) + (" " + (separator + (" " + LineText(commands[1..], separator))))
  }

  function CommandTexts(commands: seq<seq<Word>>): (r: seq<string>)
    ensures |r| == |commands|
  {
    if commands == [] then [] else [CommandText(commands[0])] + CommandTexts(commands[1..])
  }

  function MeantCommands(commands: seq<seq<Word>>): seq<seq<string>> {
    if commands == [] then [] else [MeantAll(commands[0])] + MeantCommands(commands[1..])
  }

  ghost predicate CommandFits(words: seq<Word>) { words != [] && forall w <- words :: WordFits(w) }

  /** Nothing more is read after the last command but perhaps one more separator. */
  lemma TailIsDropped(tail: string, separator: string, seg: string)
    requires separator == ";" || separator == "\\;"
    requires tail == "" || tail == " " + separator
    ensures Chain(tail, seg, false, Unquoted) == PushSegment(if tail == "" then seg else seg + " ")
  {
    hide PushSegment;
    if tail != "" {
      hide Chain;
      ChainTakes(" ", separator, seg, false, Unquoted);
      SeparatorEnds(separator, seg + " ");
    }
  }

  lemma SeparatorEnds(separator: string, seg: string)
    requires separator == ";" || separator == "\\;"
    ensures Chain(separator, seg, true, Unquoted) == PushSegment(seg)
  {
    assert separator[|separator|..] == "";
    assert PushSegment("") == [];
    assert SeparatorLength(separator) == |separator|;
    assert AtSeparator(separator, true, Unquoted);
  }

  lemma {:induction false} LineIsCut(commands: seq<seq<Word>>, separator: string, lead: string, tail: string)
    requires separator == ";" || separator == "\\;"
    requires commands != [] && forall c <- commands :: CommandFits(c)
    requires lead == "" || lead == " "
    requires tail == "" || tail == " " + separator
    ensures Chain(LineText(commands, separator) + tail, lead, true, Unquoted) == CommandTexts(commands)
    decreases |commands|
  {
    hide CommandText, PushSegment, AtSeparator, Chain;
    var text := CommandText(commands[0]);
    assert commands[0] in commands && forall c :: c in commands[1..] ==> c in commands;
    if |commands| == 1 {
      ChainKeepsCommand(commands[0], tail, lead, true);
      TailIsDropped(tail, separator, lead + text);
      WholeSegment(lead, commands[0], if tail == "" then "" else " ");
      assert lead + text + "" == lead + text;
      assert CommandTexts(commands[1..]) == [];
    } else {
      var more := LineText(commands[1..], separator);
      LineGlue(text, separator, more, tail);
      ChainKeepsCommand(commands[0], " " + (separator + (" " + (more + tail))), lead, true);
      ChainCuts(separator, more + tail, lead + text);
      WholeSegment(lead, commands[0], " ");
      LineIsCut(commands[1..], separator, " ", tail);
    }
  }

  lemma LineGlue(text: string, separator: string, more: string, tail: string)
    ensures text + (" " + (separator + (" " + more))) + tail == text + (" " + (separator + (" " + (more + tail))))
  {
    Associate(" ", more, tail);
    Associate(separator, " " + more, tail);
    Associate(" ", separator + (" " + more), tail);
    Associate(text, " " + (separator + (" " + more)), tail);
  }

  lemma WholeSegment(lead: string, words: seq<Word>, trail: string)
    requires CommandFits(words) && (lead == "" || lead == " ") && (trail == "" || trail == " ")
    ensures PushSegment(lead + CommandText(words) + trail) == [CommandText(words)]
  {
    hide CommandText, WordFits, Trim;
    CommandIsTrimmed(words);
    TrimKeeps(lead, CommandText(words), trail);
  }

  lemma {:induction false} CommandsAreRead(commands: seq<seq<Word>>)
    requires forall c <- commands :: CommandFits(c)
    ensures ArgumentsOfAll(CommandTexts(commands)) == MeantCommands(commands)
  {
    hide CommandText, Arguments;
    if commands != [] {
      assert commands[0] in commands && forall c :: c in commands[1..] ==> c in commands;
      WordsAreRead(commands[0]);
      CommandsAreRead(commands[1..]);
      assert CommandTexts(commands)[1..] == CommandTexts(commands[1..]);
    }
  }

  /** A line of commands in any style of quoting, chained by bare or escaped semicolons,
      with one more at the end or not, is read as the arguments its words stand for. */
  lemma LineIsRead(commands: seq<seq<Word>>, separator: string, tail: string)
    requires separator == ";" || separator == "\\;"
    requires commands != [] && forall c <- commands :: CommandFits(c)
    requires tail == "" || tail == " " + separator
    ensures ParseLine(LineText(commands, separator) + tail) == MeantCommands(commands)
  {
    LineIsCut(commands, separator, "", tail);
    CommandsAreRead(commands);
  }

  /** Outside quotes a backslash is a character of its own. */
  lemma BareBackslashIsRead(text: string)
    requires text != "" && forall c <- text :: !IsSpace(c) && c != '"' && c != '\''
    ensures Arguments(text) == [text]
  {
    hide Tokens;
    BareIsRead(text, "", "", false);
    assert text + "" == text && "" + text == text;
    WordEnds("", text, false);
  }
}
