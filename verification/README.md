# Verified models of psmux

psmux is a terminal multiplexer: it keeps windows of panes, prints and parses
their layouts, lets the user read back a pane's history in copy mode, captures
pane contents with their colours, reads a tmux-style configuration, and hands a
client's environment to its server. This project models the parts of it that
carry non-trivial logic and proves what they are for.

The loops of the modelled code are methods with invariants, proved against
functions, and an object whose methods update its fields is a class whose methods
say what the whole new state is. The arithmetic of a split's rectangles, the
search for a first leaf, the recursive layout printer, the readers of a row's text
and chains of iterators are functions only. The
theorems are about those functions and states. Where a natural statement is false
of the code, the code is kept as it is, the exact condition under which the
statement holds is proved as an equivalence, and a lemma gives an input on which
it fails.

| file | what it is about |
|---|---|
| `Text.dfy` | decimal numerals as Rust prints and parses them, trimming, joining |
| `PaneTree.dfy` | the pane tree and the rectangles of a split |
| `LayoutText.dfy` | the two layout printers, the checksum and the recursive reader |
| `LayoutGeometry.dfy` | what a layout text says about where the panes are |
| `LayoutApply.dfy` | rebuilding the tree from a preset or a layout string |
| `LayoutPresets.dfy` | what each layout name does to a window, by name |
| `Terminal.dfy` | a screen as history plus visible rows behind a movable window |
| `Yank.dfy`, `Capture.dfy`, `Search.dfy`, `Motions.dfy`, `Painted.dfy` | copy mode as a walk of that window, against the absolute grid |
| `Ownership.dfy` | which pane owns copy mode, over all runs |
| `Sgr.dfy`, `Styled.dfy` | SGR text (section 8.3.117 of ECMA-48, 5th edition): its interpreter, and the styled capture that emits it |
| `RunRows.dfy` | the two run-length row encoders |
| `Glob.dfy`, `Splitter.dfy`, `CommandLine.dfy`, `Flags.dfy` | the matcher, the splitters, the tokenizer and the flag scanner |
| `IfStack.dfy` | the `%if` stack machine |
| `EnvHandoff.dfy` | the environment block and the adoption plan |
| `Chooser.dfy` | which rows of the tree chooser are visible |

The shared view of copy mode: a screen has `history` and `visible` lines and an
offset. `SetScrollback(n)` clamps to the history, and row `r` at offset `s` shows
line `|history| - s + r` of the whole buffer. Everything that moves the window is
specified on that buffer.

Statements that turned out false as first put, with the exact condition proved:

- The glob matcher tests a literal before a star, so `*` rejects `*a`
  (`Glob.StarRejectsStarText`). A text is matched rightly by every pattern exactly
  when it has no `*` (`Glob.AgreesOnText`); the matcher is sound for all inputs.
- The accumulator printer leaves out both brackets of every empty split. Its text
  reads back as the window's layout exactly when no split is empty
  (`LayoutText.ControlLayoutRoundTrip`; a split that holds an empty one is
  `LayoutText.EmptySplitLosesBrackets`).
- A layout string keeps a window's panes exactly when it has one leaf per pane
  (`LayoutApply.LayoutStringConserves`; what another window's string drops is
  `LayoutApply.AnotherLayoutString`).
- The yank of a selection one of whose ends is no longer in the buffer writes a
  newline too many in character and block mode (`Yank.YankExactlyWhen`; a pane that
  has shrunk is `Yank.ShrunkPaneYanksNewline`).
- The fast capture path narrows to 16 bits before it clamps, and counts rows from
  the current view (`Capture.CaptureIsWantedExactlyWhen`; a view scrolled back is
  `Capture.ScrolledViewIsCaptured`).
- The styled capture writes no sequence for a column past a narrow row, so that with
  trailing blanks kept the last cell's style runs on to where the screen is blank
  (`Styled.RowShows`, `Styled.StyledCaptureShows`; a history row in a widened pane is
  `Styled.NarrowRowRunsOn`).
- A frame clamps the ends of a selection to the pane, and paints what is yanked
  exactly when the columns survive that (`Painted.PaintedExactlyWhen`; an end that
  has scrolled off is `Painted.ScrolledOffEndPaintsLess`).
- A vertical cursor step is taken as asked exactly when its sum fits 16 bits
  (`Motions.TravelledAsAsked`, `Motions.FarStepGoesUp`).
- Scrolling to a line can land one line early below four rows
  (`Search.ScrollToLine`, `Search.LandsOneLineEarly`).
- The one-pass chooser scan is right for every set of collapsed rows exactly when
  no row deepens by more than one level (`Chooser.ScanIsRightExactlyWhen`,
  `Chooser.JumpIsMisjudged`).
- The fast and the simple run encoder differ exactly at a missing cell after one
  that a blank could be mistaken for (`RunRows.FastIsSimpleExactlyWhen`,
  `RunRows.MissingCellDiffers`).
- A block of variables decodes to what was sent exactly when no encodable name has
  an inner `=` (`EnvHandoff.BlockRoundTrip`; `A=B` is `EnvHandoff.InnerEqualsMoves`).
  This is an edge of the codec: an operating system hands out no such name.
- Adoption is proved wherever the plan's key and the operating system tell apart the
  same ones of the names that occur. Onto an empty server a client is adopted whole
  exactly when the key keeps its names apart (`EnvHandoff.AdoptedExactlyWhenApart`; a
  sharp s and `SS` are `EnvHandoff.SharpSHidesSS`).
- A kill that takes the focus from a pane that lives on parks nothing. The pane's
  cursor and mode come back exactly when the last edit since the pane was entered or
  focused left them as they were (`Ownership.KillKeepsCursorExactlyWhen`; a run from
  the start that loses a cursor movement is `Ownership.KillLosesCursor`). Recorded
  scroll offsets are the shown ones throughout a run exactly when no such kill
  interrupts a reader who has scrolled (`Ownership.RunInStepExactlyWhen`).

## Model

| member | source | states |
|---|---|---|
| Text.ParseReads | crates/psmux/src/layout.rs:1542-1571 | a printed number is read back, with a plus sign before it as well, and refused when it exceeds its type |
| Text.ParseRefuses | crates/psmux/src/layout.rs:1542-1571 | a text without a digit or with another character past the first is refused |
| PaneTree.LeavesOfAllConcat | crates/psmux/src/tree.rs:1164-1175 | collecting leaves goes through lists of children in order |
| PaneTree.SharesFill | crates/psmux/src/tree.rs:9-78 | proportional shares, rounded down and closed by the last child, never overrun and use up exactly what was available |
| PaneTree.StealKeepsAndFills | crates/psmux/src/tree.rs:9-78 | taking cells from the largest child conserves the total, and brings every child to the minimum whenever there is room for it |
| PaneTree.ExtentsFill | crates/psmux/src/tree.rs:9-78 | the children of a split share out all its cells, each at least the minimum when that fits |
| PaneTree.PlaceTiles | crates/psmux/src/tree.rs:9-78 | placed one after another with one separator between, extents tile a stretch without gap or overlap |
| PaneTree.SplitTilesArea | crates/psmux/src/tree.rs:9-78 | whenever the separators fit, the rectangles of a split tile its area exactly |
| PaneTree.ExtentsAre | crates/psmux/src/tree.rs:9-78 | every child but the last gets its proportion of the cells, rounded down, when all proportions reach the minimum or there is no room for it |
| LayoutGeometry.SplitShows | crates/psmux/src/tree.rs:9-78 | the rectangles of a split lie side by side when it is horizontal and one above the other when it is vertical, with one cell between, filling its area, in proportion to its sizes |
| LayoutGeometry.DescriptionShows | crates/psmux/src/format.rs:50-78 | the description of a tree shows it: at every level the areas of the children fill their split's area along its own kind |
| LayoutGeometry.WindowLayoutShows | crates/psmux/src/format.rs:44-78 | a window's layout string reads back as a layout that has the window's area and shows its tree at every level |
| LayoutGeometry.ControlLayoutShows | crates/psmux/src/control.rs:20-57 | so does the control-mode string of a tree without an empty split |
| LayoutGeometry.SideBySide | crates/psmux/src/tree.rs:9-78 | two equal panes side by side in 80 columns are 39 and 40 wide, at columns 0 and 40 |
| LayoutText.BodyPrintsDescription | crates/psmux/src/format.rs:50-78 | the layout text of a tree is the print of a descriptor with one rectangle per child and every pane's id |
| LayoutText.AppendLayoutBody | crates/psmux/src/control.rs:20-48 | the accumulator printer appends the tree's text, computed by recursion over the tree, to what is there |
| LayoutText.PrintersAgree | crates/psmux/src/control.rs:20-48 | both printers write the same text exactly when no split is empty, otherwise the accumulator's is shorter |
| LayoutText.LayoutChecksum | crates/psmux/src/format.rs:81-88 | the checksum loop computes the 16-bit rotate-and-add fold of the text |
| LayoutText.ChecksumStepInjective | crates/psmux/src/control.rs:6-13 | one checksum step never merges two different states |
| LayoutText.ChecksumRotates | crates/psmux/src/control.rs:6-13 | one step moves the lowest bit of the sixteen to the top, the others down by one, and adds the byte |
| LayoutText.ChecksumAppends | crates/psmux/src/format.rs:81-88 | the bytes are taken from left to right |
| LayoutText.ChecksumOfKnownText | crates/psmux/src/format.rs:81-88 | the checksum of the layout of a one-cell pane, written out |
| LayoutText.Hex4Is | crates/psmux/src/format.rs:44-48 | the checksum is written as four lower-case hexadecimal digits, the highest first |
| LayoutText.ChecksumDetectsOneByte | crates/psmux/src/control.rs:6-13 | changing any one byte of a text changes its checksum |
| LayoutText.ParseLayoutChildren | crates/psmux/src/layout.rs:1575-1597 | the child loop terminates and reads what the recursive grammar reads |
| LayoutText.DimsParse | crates/psmux/src/layout.rs:1557-1571 | printed dimensions read back, consuming exactly their own text |
| LayoutText.NodeRoundTrip | crates/psmux/src/layout.rs:1520-1554 | for every descriptor whose leaves carry ids, parsing its text returns it and consumes exactly that text, before the end, a comma or a bracket |
| LayoutText.ChildrenRoundTrip | crates/psmux/src/layout.rs:1575-1597 | a printed list of children reads back up to and including its closing bracket |
| LayoutText.PaneIdParses | crates/psmux/src/layout.rs:1542-1549 | a pane's id is read up to a comma, any bracket or the end |
| LayoutText.PrefixExactlyWhen | crates/psmux/src/layout.rs:1457-1471 | a layout string is read exactly when it begins with four hexadecimal digits in either case and a comma, blanks around it or not, and its body is a node |
| LayoutText.WindowLayoutRoundTrip | crates/psmux/src/format.rs:44-78 | parsing a window's `checksum,body` text returns exactly the window's layout |
| LayoutText.EmptySplitMisread | crates/psmux/src/control.rs:20-48 | wherever a tree has an empty split, its accumulator text is not read back as the tree |
| LayoutText.EmptySplitLosesBrackets | crates/psmux/src/control.rs:20-57 | for a split that holds an empty split the two texts differ in the inner brackets, and the control-mode string is not read back as the layout |
| LayoutText.ControlLayoutRoundTrip | crates/psmux/src/control.rs:20-57 | the control-mode layout string reads back as the window's layout exactly when no split is empty |
| LayoutApply.EqualSizesSum | crates/psmux/src/layout.rs:1293-1300 | equal sizes add up to 100 for every number of panes |
| LayoutApply.PercentagesSum | crates/psmux/src/layout.rs:1484-1517 | the percentages of a rebuilt split are at most 100 each and add up to 100 exactly when its extents have a positive sum or its child count divides 100 |
| LayoutApply.FillNode | crates/psmux/src/layout.rs:1484-1517 | the recursive walk with its loop over the children takes panes from the front as the grammar-directed filling does, and stops at the first child that gets none |
| LayoutApply.FillTakesPanes | crates/psmux/src/layout.rs:1484-1517 | filling a layout takes the first panes in order and leaves the others, and with too few panes takes them all and builds nothing |
| LayoutApply.FillWellSized | crates/psmux/src/layout.rs:1484-1517 | every split of the filled tree has one size per child adding up to 100 exactly when the layout's extents allow it |
| LayoutApply.FirstLeafFound | crates/psmux/src/tree.rs:604-619 | the first-leaf path exists exactly when there is a leaf, and leads to the first one in order |
| LayoutApply.Window.ApplyLayout | crates/psmux/src/layout.rs:1266-1395 | replaces the root by the tree the layout name denotes for the old panes, and the active path by the path of its first leaf |
| LayoutApply.EvenConserves | crates/psmux/src/layout.rs:1307-1316 | the even presets keep the panes in order and are well sized |
| LayoutApply.MainConserves | crates/psmux/src/layout.rs:1317-1356 | the main presets keep the panes in order and are well sized for every main percentage |
| LayoutApply.TiledConserves | crates/psmux/src/layout.rs:1359-1378 | the tiled preset keeps the panes in order and is well sized at every level |
| LayoutApply.PresetConserves | crates/psmux/src/layout.rs:1266-1395 | whatever the window, a preset or an unknown name keeps the in-order pane sequence, with sizes adding up to 100 |
| LayoutApply.LayoutStringConserves | crates/psmux/src/layout.rs:1266-1395 | a layout string keeps the panes exactly when it has as many leaves; with fewer it drops the surplus panes, with more it drops all |
| LayoutApply.FocusAfterPreset | crates/psmux/src/layout.rs:1266-1395 | after a preset the active path leads to what was the window's first pane |
| LayoutApply.FillRestores | crates/psmux/src/layout.rs:1484-1517 | filling a tree's own description with its panes rebuilds the tree up to sizes and leaves the other panes |
| LayoutApply.AnotherLayoutString | crates/psmux/src/layout.rs:1266-1395 | another window's layout string keeps as many panes as that window has, the first ones, or none if there are too few |
| LayoutApply.OwnLayoutStringRestores | crates/psmux/src/layout.rs:1266-1395 | printing a window's layout and applying it restores the tree up to sizes: the same nesting and kinds of split, every pane in its place |
| LayoutApply.LayoutStringIsNoPreset | crates/psmux/src/layout.rs:1306-1395 | a window's layout string is never mistaken for a preset name |
| LayoutPresets.NamesMean | crates/psmux/src/layout.rs:1302-1378 | each of the nine names, in any letter case, gives a window of two panes or more its tree: one flat even split, a main pane of 60 or min(option, 95) percent with the rest split the other way, or a tree halved at every level |
| LayoutPresets.OtherNamesMean | crates/psmux/src/layout.rs:1379-1395 | any other name is read as a layout string: its tree is built if there are panes enough, the window is left without panes if there are not, and one that does not parse gives a flat horizontal split |
| LayoutPresets.NoPresetExactlyWhen | crates/psmux/src/layout.rs:1306-1395 | a name is no preset exactly when it spells none of the nine |
| LayoutPresets.EvenIsFlat | crates/psmux/src/layout.rs:1307-1316 | an even preset is one split of its kind with every pane a child and equal sizes, the last closing to 100 |
| LayoutPresets.MainIsFirst | crates/psmux/src/layout.rs:1317-1356 | a main preset splits into the first pane at its share and the other panes, split the other way |
| LayoutPresets.TiledIsHalved | crates/psmux/src/layout.rs:1359-1378 | the tiled preset halves the panes at every level, in alternating directions |
| LayoutPresets.PercentagesAre | crates/psmux/src/layout.rs:1484-1517 | a child's percentage is the floor of its width in a horizontal split, of its height in a vertical one, as a share of the sum |
| LayoutPresets.FilledIsBuilt | crates/psmux/src/layout.rs:1484-1517 | a filled layout has at every level the kinds of the layout and the percentages of its areas |
| Glob.GlobMatch | crates/psmux/src/format.rs:2184-2202 | the loop with one remembered star terminates, answers yes only for real matches, and exactly for them when the text has no star |
| Glob.Sound | crates/psmux/src/format.rs:2184-2202 | from any loop state a successful scan has a match of the rest, or one the remembered star promised |
| Glob.Complete | crates/psmux/src/format.rs:2184-2202 | on star-free text the scan finds a match whenever the rest or the remembered star has one |
| Glob.ScanIsMatch | crates/psmux/src/format.rs:2184-2202 | sound for all inputs, complete for texts without a star |
| Glob.StarRejectsStarText | crates/psmux/src/format.rs:2184-2202 | the pattern `*` rejects the text `*a` although it means a match |
| Glob.Witness | crates/psmux/src/format.rs:2184-2202 | every text with a star has a pattern that means a match and is refused |
| Glob.AgreesOnText | crates/psmux/src/format.rs:2184-2202 | all patterns are judged rightly on a text exactly when the text has no star |
| Splitter.Split | crates/psmux/src/format.rs:2124-2166 | the scanning loop cuts at exactly the delimiters outside braces and style blocks |
| Splitter.SplitLossless | crates/psmux/src/format.rs:2124-2166 | rejoining the parts with the delimiter gives the text back |
| Splitter.PartsAreStable | crates/psmux/src/format.rs:2124-2166 | every part splits to itself |
| Splitter.ConditionalReassembles | crates/psmux/src/format.rs:2168-2176 | condition, then-branch and else-branch reassemble to the body, and the first two hold no top-level comma |
| Splitter.WrittenIsSplit | crates/psmux/src/format.rs:2124-2166 | any list of pieces of plain text, balanced `#{...}`, `#[...]` and escaped delimiters, joined with the delimiter, is split into exactly these pieces |
| Splitter.PiecePasses | crates/psmux/src/format.rs:2124-2166 | a piece is read without a cut at any depth, whatever follows it |
| Splitter.BracesHoldTheComma | crates/psmux/src/format.rs:2124-2166 | `#{a,b},y` splits into `#{a,b}` and `y` |
| Splitter.ConditionalIsRead | crates/psmux/src/format.rs:2168-2176 | a condition and a then-branch are read back as written, and all that follows the second top-level comma is the else-branch |
| CommandLine.SplitChainedCommands | crates/psmux/src/config.rs:1653-1698 | the loop yields the trimmed segments between separators outside quotes |
| CommandLine.ParseCommandLine | crates/psmux/src/commands.rs:757-820 | the tokenizer loop yields the arguments that the quoting rules denote |
| CommandLine.ChainRecovers | crates/psmux/src/config.rs:1653-1698 | chain-splitting a joined line gives back each quoted command, whatever its arguments hold |
| CommandLine.ArgumentsRecover | crates/psmux/src/commands.rs:757-820 | tokenizing a quoted command gives back its argument list, empty arguments included |
| CommandLine.SomeArgument | crates/psmux/src/commands.rs:757-820 | a command that starts with a non-blank has an argument |
| CommandLine.ChainedNotBlank | crates/psmux/src/config.rs:1653-1698 | no segment is empty or starts with a blank |
| CommandLine.CommandLineRoundTrip | crates/psmux/src/config.rs:1653-1698 | quoting, joining, splitting and tokenizing give back the argument lists exactly when none of them is empty |
| CommandLine.WordsAreRead | crates/psmux/src/commands.rs:757-820 | words made of bare, single-quoted, escaped and plain double-quoted parts in any mixture are read as the arguments they stand for |
| CommandLine.BareBackslashIsRead | crates/psmux/src/commands.rs:757-820 | outside quotes a backslash is a character of its own |
| CommandLine.LineIsCut | crates/psmux/src/config.rs:1653-1698 | commands of such words chained by `;` or by `\;`, one more at the end or not, are cut into exactly these commands |
| CommandLine.LineIsRead | crates/psmux/src/config.rs:1653-1698 | and the whole line is read as the argument lists its words stand for |
| IfStack.Reader.ParseConfigContent | crates/psmux/src/config.rs:369-450 | the line loop moves state, stack and log as the step function does, line after line |
| IfStack.RunLinesConcat | crates/psmux/src/config.rs:369-450 | reading two texts in turn is reading their concatenation |
| IfStack.InactiveSkips | crates/psmux/src/config.rs:369-416 | under an inactive block a nested script evaluates nothing, runs nothing and restores the stack |
| IfStack.DeadArms | crates/psmux/src/config.rs:390-411 | arms after one that has run are skipped without evaluating their conditions |
| IfStack.TakenArm | crates/psmux/src/config.rs:390-411 | once an arm runs, its body is executed and no later arm is |
| IfStack.LiveArms | crates/psmux/src/config.rs:370-411 | the arms of a block run the first one whose condition holds in the state reached so far, or the else arm |
| IfStack.MachineIsMeaning | crates/psmux/src/config.rs:369-450 | for every nesting the stack machine evaluates exactly the conditions and runs exactly the lines of the structured meaning, in order, and restores the stack |
| IfStack.UnquoteQuoted | crates/psmux/src/config.rs:371 | stripping a written condition gives the condition back |
| IfStack.OtherQuotes | crates/psmux/src/config.rs:371 | a bare condition is itself, single quotes are dropped too, inside double ones as well, and double quotes inside single ones stay |
| IfStack.JoinLines | crates/psmux/src/config.rs:243-292 | the loop over the lines of the text trims their ends and joins each line that ends in backslashes with the next, a byte-order mark having been dropped |
| IfStack.ContinuedLine | crates/psmux/src/config.rs:271-292 | a line that ends in backslashes, blanks after them or not, is carried to the next one without them and with one space |
| IfStack.ContinuedLinesAreOne | crates/psmux/src/config.rs:271-292 | any number of continued lines and the line after them read as one logical line, and what follows is read on its own |
| IfStack.ContinuedToTheEnd | crates/psmux/src/config.rs:271-292 | a text that ends while a line is continued still gives that line |
| IfStack.LogicalLinesOf | crates/psmux/src/config.rs:243-292 | a byte-order mark is dropped and nothing else is |
| IfStack.TwoLinesAreOne | crates/psmux/src/config.rs:271-292 | `a\` and `b` on two lines read as `a b` |
| IfStack.WrittenIsRead | crates/psmux/src/config.rs:369-436 | a line written out, with white space around it, is classified as itself |
| IfStack.LaidAreRead | crates/psmux/src/config.rs:271-436 | cutting, joining, trimming and classifying the text of written lines gives back the lines |
| IfStack.IndentedEndifCloses | crates/psmux/src/config.rs:302-416 | an indented `%endif` is read as the directive |
| IfStack.ConfigTextMeaning | crates/psmux/src/config.rs:243-450 | writing a script as one text, with any indentation and trailing blanks and with or without a byte-order mark, and reading that text gives its structured meaning from every state |
| Chooser.VisibleLines | crates/psmux/src/choose_tree.rs:126-145 | the one-pass loop collects the rows its skip rule shows |
| Chooser.ShownIsVisible | crates/psmux/src/choose_tree.rs:106-145 | if no row deepens by more than one level, a row is shown exactly when none of its ancestors is collapsed |
| Chooser.JumpIsMisjudged | crates/psmux/src/choose_tree.rs:126-145 | a row that jumps two levels is hidden by its collapsed predecessor, which is no ancestor |
| Chooser.ScanIsRightExactlyWhen | crates/psmux/src/choose_tree.rs:126-145 | the scan agrees with the ancestor chains for every collapsed set exactly when no row deepens by more than one level |
| Chooser.VisibleLinesMeaning | crates/psmux/src/choose_tree.rs:126-145 | the result is increasing and holds exactly the rows without a collapsed ancestor |
| Chooser.LeftStaysVisible | crates/psmux/src/choose_tree.rs:226-241 | from a visible row the Left key never selects a row that is hidden, before or after the collapse |
| Chooser.LeftKeyDoes | crates/psmux/src/choose_tree.rs:226-241 | the Left key collapses an expanded row with deeper rows below it, otherwise the nearest row above that is one level up, and moves up only when there is none |
| Chooser.RightKeyDoes | crates/psmux/src/choose_tree.rs:256-271 | the Right key expands exactly a collapsed row with deeper rows below it, and moves down from any other |
| Chooser.LeftKeyInTree | crates/psmux/src/choose_tree.rs:226-271 | both keys on the rows of a session with two windows and two panes |
| Chooser.RightThenLeft | crates/psmux/src/choose_tree.rs:226-271 | Right and then Left on a row put the collapsed set back |
| Flags.FlagValueKind | crates/psmux/src/cli.rs:208-234 | the template loop finds the kind the template declares for a letter |
| Flags.TemplateDeclares | crates/psmux/src/cli.rs:208-234 | reading back a template built from declarations gives every letter its declared kind |
| Flags.ValidateFlagArguments | crates/psmux/src/cli.rs:263-308 | the token loop gives the verdict of the scan over whole tokens |
| Flags.RejectedExactlyWhen | crates/psmux/src/cli.rs:263-308 | a line is rejected for a flag exactly when its last token is looked at as a flag and ends in that letter, which requires a value |
| Flags.OneMoreTokenIsEnough | crates/psmux/src/cli.rs:263-308 | a rejected line with any one token added is accepted |
| Flags.PositionalEndsScan | crates/psmux/src/cli.rs:263-308 | after the first token that is not a flag nothing changes the verdict |
| Flags.WholeTokens | crates/psmux/src/cli.rs:263-308 | a token of letters without value, and one whose value is attached after the first letter that takes one, are read on their own |
| Flags.OpenTokens | crates/psmux/src/cli.rs:263-308 | a token that ends in the letter that takes a value: a required one is the next token whatever it looks like, and its absence the error; an optional one is the next token unless that looks like a flag |
| Flags.FlagsEnd | crates/psmux/src/cli.rs:263-308 | the scan accepts at `-`, at `--`, at a token without a dash and at the end |
| Flags.KindIsDeclared | crates/psmux/src/cli.rs:263-271 | the command's template decides how a letter takes a value, and the extra flags where it says nothing |
| EnvHandoff.EncodeEnvBlock | crates/psmux/src/client_env.rs:113-138 | the encoder writes the `name=value` entries of the encodable names, each ended by NUL, and a final NUL, little-endian |
| EnvHandoff.DecodeEnvBlock | crates/psmux/src/client_env.rs:142-163 | the decoder loop refuses odd lengths and otherwise yields every entry between NULs that has a separator, skipping empty ones |
| EnvHandoff.BytesRoundTrip | crates/psmux/src/client_env.rs:142-163 | 16-bit units survive the byte order both ways |
| EnvHandoff.EntryRoundTrip | crates/psmux/src/client_env.rs:113-163 | an entry decodes to itself exactly when its name has no `=` |
| EnvHandoff.BlockRoundTrip | crates/psmux/src/client_env.rs:113-163 | a block decodes to the encodable entries that were sent exactly when no such name has an `=` |
| EnvHandoff.InnerEqualsMoves | crates/psmux/src/client_env.rs:113-163 | the variable `A=B` with value `C` arrives as `A` with value `B=C`, an edge of the codec alone |
| EnvHandoff.AsciiUpperIsFit | crates/psmux/src/client_env.rs:75-109 | upper-casing ASCII letters maps settable names to settable names only, as the plan needs of its key |
| EnvHandoff.PlanAdoption | crates/psmux/src/client_env.rs:180-221 | the two loops with their `seen` set build the plan's removals and assignments |
| EnvHandoff.Process.ApplyPlan | crates/psmux/src/client_env.rs:224-231 | the environment becomes the old one with the removals taken out and the assignments made, names being told apart as the operating system does |
| EnvHandoff.SetsEffect | crates/psmux/src/client_env.rs:198-230 | after the assignments every name has the client's first usable value, or its old one |
| EnvHandoff.RemovalsEffect | crates/psmux/src/client_env.rs:188-227 | after the removals exactly the removable names the client lacks are gone |
| EnvHandoff.AdoptionEffect | crates/psmux/src/client_env.rs:180-231 | applying a plan leaves each name it may touch with the client's value or absent, and every other name alone |
| EnvHandoff.AdoptedExactlyWhenApart | crates/psmux/src/client_env.rs:180-231 | onto an empty server, of a client whose usable names the operating system keeps apart, an entry is lost exactly when an earlier usable one has its key, and all are adopted exactly when the key keeps them apart |
| EnvHandoff.SharpSHidesSS | crates/psmux/src/client_env.rs:75-77 | of a client with `PATH`, `TMP` and two variables named by a sharp s and by `SS`, a server loses the last when the key upper-cases as text and the operating system unit by unit |
| EnvHandoff.InsaneChangesNothing | crates/psmux/src/client_env.rs:166-221 | a payload with too few entries or no PATH changes nothing |
| EnvHandoff.OwnedExactlyWhen | crates/psmux/src/client_env.rs:52-83 | the server owns exactly the two names `PSMUX_DATA_DIR` and `PSMUX_TARGET_SESSION`, written out in 16-bit units |
| EnvHandoff.OwnedStay | crates/psmux/src/client_env.rs:180-231 | whatever the client sends, both keep the server's values |
| EnvHandoff.PlanIsHarmless | crates/psmux/src/client_env.rs:85-221 | whatever was read, a plan removes only the server's names and sets only the payload's entries, and never passes on an empty name, an `=` in a name, a NUL, or a name the server owns |
| EnvHandoff.SaneExactlyWhen | crates/psmux/src/client_env.rs:166-173 | a payload counts exactly when it has at least four entries and one is a `PATH` with a value |
| EnvHandoff.SaneExamples | crates/psmux/src/client_env.rs:166-173 | four entries with `PATH` or `path` count; three entries, an empty `PATH` and a `PATHS` do not |
| EnvHandoff.SecondPlanIsEmpty | crates/psmux/src/client_env.rs:180-231 | adopting the same environment again plans nothing |
| EnvHandoff.AdoptionEndToEnd | crates/psmux/src/client_env.rs:113-231 | encoded, decoded and adopted, a client environment decides every settable name the server does not own and no other, where the key and the operating system tell apart the same ones of the names that occur |
| Terminal.Screen.SetScrollback | crates/psmux/crates/vt100-psmux/src/grid.rs:248-250 | the offset is clamped to the retained history and nothing else changes |
| Terminal.Screen.VisibleRowIsLine | crates/psmux/crates/vt100-psmux/src/grid.rs:195-208 | row `r` at offset `s` shows line `history - s + r` of the whole buffer |
| Terminal.RowTextHasNoNewline | crates/psmux/src/copy_mode.rs:897-918 | the text of a row whose cells hold no newline holds none |
| Terminal.RowTextIs | crates/psmux/src/copy_mode.rs:897-918 | a row's text is the texts of its columns from left to right: what a cell holds, a space for one that holds nothing or is not there, nothing for the second half of a wide glyph |
| Terminal.RowTextSplits | crates/psmux/src/copy_mode.rs:913-918 | the text of a stretch of columns is that of its left part followed by that of its right part |
| Yank.ReadSelection | crates/psmux/src/copy_mode.rs:719-803 | the loop that moves the window terminates and reads the selection's retained lines, each once and in order |
| Yank.CopyState.YankSelection | crates/psmux/src/copy_mode.rs:719-821 | stores the text in the named register and on top of the paste buffers, puts the view back and changes no other field; without both ends it changes nothing |
| Yank.PiecesAreMeaning | crates/psmux/src/copy_mode.rs:719-803 | what the loop writes line by line is the selected lines joined by newlines, or each ended by one in line mode |
| Yank.YankRefines | crates/psmux/src/copy_mode.rs:719-803 | with both ends retained, the yank is the character, line or block selection of the absolute grid |
| Yank.SwapKeepsYank | crates/psmux/src/copy_mode.rs:719-803 | swapping anchor and endpoint changes nothing, wherever they are |
| Yank.YankExactlyWhen | crates/psmux/src/copy_mode.rs:719-803 | the yank is the meaning of the selection over the retained lines exactly in line mode, with both ends retained, or with nothing retained |
| Yank.ShrunkPaneYanksNewline | crates/psmux/src/copy_mode.rs:719-803 | an end recorded on row 20 of a pane that has shrunk to ten rows: ten newlines are yanked where the joined lines have nine |
| Yank.ReadNewlines | crates/psmux/src/copy_mode.rs:719-803 | a read that stops before the last selected line has written a newline for every line |
| Yank.JoinNewlines | crates/psmux/src/copy_mode.rs:719-803 | the selected lines joined hold one newline fewer than lines |
| Yank.YankOnCells | crates/psmux/src/copy_mode.rs:719-803 | a yank within the buffer holds the texts of the selected cells of every line in every mode, written out on the cells |
| Capture.CaptureView | crates/psmux/src/copy_mode.rs:1424-1459 | the fast path writes the asked rows of the current view |
| Capture.CaptureWalk | crates/psmux/src/copy_mode.rs:1482-1514 | the walk in screenfuls terminates and writes every line from start to end once, in order |
| Capture.CapturePaneRange | crates/psmux/src/copy_mode.rs:1424-1525 | captures the range and leaves the view where it was |
| Capture.AllHistoryIsWholeBuffer | crates/psmux/src/copy_mode.rs:1467-1480 | asking for all history gives the whole buffer wherever the view is |
| Capture.CaptureIsWantedExactlyWhen | crates/psmux/src/copy_mode.rs:1410-1480 | for any two ends, a capture covers exactly the wanted existing lines just when a stated condition on offset, height and ends holds |
| Capture.CaptureIsWanted | crates/psmux/src/copy_mode.rs:1410-1525 | under that condition the captured rows are the wanted rows of the buffer |
| Capture.ScrolledViewIsCaptured | crates/psmux/src/copy_mode.rs:1424-1459 | with the view scrolled back by three lines the capture of the screen gives the lines on view |
| Capture.WideRowWraps | crates/psmux/src/copy_mode.rs:1410-1422 | row 65,536 is taken for the top row instead of the last |
| Capture.CapturedLineIs | crates/psmux/src/copy_mode.rs:897-918 | a captured line holds the texts of all its cells in order, without its trailing white space unless that is kept, and a newline |
| Capture.CapturedLinesAre | crates/psmux/src/copy_mode.rs:1424-1525 | captured lines follow each other in order, and one blank line alone counts as nothing |
| Sgr.StyleParamsApply | crates/psmux/src/copy_mode.rs:1597-1638 | interpreting the parameters written for a style sets exactly that style, whatever was in force |
| Sgr.ModesSwitchOff | crates/psmux/crates/vt100-psmux/src/screen.rs:1918-2115 | each of intensity, italic, blink, inverse, hidden and strikethrough that is off is switched on by its code and off again by the other one |
| Sgr.UnderlinesSwitchOff | crates/psmux/crates/vt100-psmux/src/screen.rs:1918-2115 | so is every underline style, the old code for the double one included, and an unknown style is straight |
| Sgr.ColorsSwitchOff | crates/psmux/crates/vt100-psmux/src/screen.rs:1918-2115 | so are the dark and bright colours of both grounds |
| Sgr.UnknownChangesNothing | crates/psmux/crates/vt100-psmux/src/screen.rs:1918-2115 | unknown codes and stray subparameters change nothing, and a colour of an unknown kind or cut short ends the sequence |
| Sgr.ParamsRead | crates/psmux/src/copy_mode.rs:1597-1655 | formatted parameters and subparameters read back as they were |
| Sgr.SubsRead | crates/psmux/src/copy_mode.rs:1607-1611 | a parameter with subparameters reads back as it was |
| Sgr.ShowStyle | crates/psmux/crates/vt100-psmux/src/screen.rs:1918-2115 | after a written style sequence the terminal draws in exactly that style |
| Sgr.ShowReset | crates/psmux/crates/vt100-psmux/src/screen.rs:1918-2115 | after a reset the terminal draws in the default style |
| Sgr.ShowBareReset | crates/psmux/crates/vt100-psmux/src/screen.rs:1918-2115 | a sequence without a number is a reset |
| Sgr.ShowUnfinished | crates/psmux/crates/vt100-psmux/src/screen.rs:1918-2115 | a sequence that is not finished shows nothing |
| Sgr.ShowText | crates/psmux/crates/vt100-psmux/src/screen.rs:1918-2115 | text without an escape is drawn as it stands, in the style in force |
| Styled.RenderStyledRow | crates/psmux/src/copy_mode.rs:1562-1695 | the column loop and the trim write the row's text and carry the style tracker to the next row |
| Styled.CapturePaneStyled | crates/psmux/src/copy_mode.rs:1539-1766 | captures the range in styled form, drops blank rows at the end and leaves the view where it was |
| Styled.StyledWalk | crates/psmux/src/copy_mode.rs:1740-1762 | the walk renders every line from start to end once, in order, with the tracker carried across screenfuls |
| Styled.VisitProduces | crates/psmux/src/copy_mode.rs:1563-1666 | a sequence is emitted for the first stored cell of a row and after it exactly where the style changes, trimmed cells included |
| Styled.EmitShows | crates/psmux/src/copy_mode.rs:1676-1679 | the emitted pieces draw exactly the written cells, each in its own style |
| Styled.RowWrites | crates/psmux/src/copy_mode.rs:1562-1695 | a row draws what was written of it and ends in the default style, with the tracker ready for the next row |
| Styled.RowShows | crates/psmux/src/copy_mode.rs:1562-1695 | a row draws every kept cell as the screen has it, in its text, colours and attributes, exactly when trailing blanks are trimmed, or the row is as wide as the pane, or its last cell has the default style |
| Styled.NarrowRowRunsOn | crates/psmux/src/copy_mode.rs:1662-1665 | a coloured one-cell history row in a pane of two columns comes out with its second column coloured |
| Styled.CaptureShows | crates/psmux/src/copy_mode.rs:1548-1695 | a whole capture ends in the default style and is right exactly when each of its rows is |
| Styled.TrimTrailingLines | crates/psmux/src/copy_mode.rs:1778-1797 | the loop terminates and drops trailing lines of resets one by one |
| Styled.TrimStep | crates/psmux/src/copy_mode.rs:1778-1797 | the trim drops the last line exactly when resets are all it holds |
| Styled.BlankLineStrips | crates/psmux/src/copy_mode.rs:1778-1797 | a rendered line holds nothing but resets exactly when no cell of its row was kept |
| Styled.TrimDropsBlankRows | crates/psmux/src/copy_mode.rs:1778-1797 | the trim leaves the rendering of the rows up to the last with a kept cell |
| Styled.StyledCaptureShows | crates/psmux/src/copy_mode.rs:1539-1797 | the text that is returned ends in the default style and draws exactly the kept cells of the captured rows less the blank ones at the end just when each of these rows is shown right, and always without trailing blanks |
| Motions.CopyView.MoveCursor | crates/psmux/src/copy_mode.rs:290-323 | the cursor lands on the clamped line and column of the 16-bit sums, with offset and row in range |
| Motions.TravelledAsAsked | crates/psmux/src/copy_mode.rs:290-323 | a vertical step moves by dy before clamping exactly when the sum fits 16 bits and is not the least 16-bit number |
| Motions.FarStepGoesUp | crates/psmux/src/copy_mode.rs:290-323 | asked 32,767 lines down from the second row, the cursor goes to the top of the buffer |
| Motions.CopyView.ScrollMiddle | crates/psmux/src/copy_mode.rs:1950-1975 | the line under the cursor stays and reaches the middle row unless an end of the history stops the view |
| Motions.CopyView.PageScroll | crates/psmux/src/copy_mode.rs:589-611 | the view moves by a page, or the cursor row does where the view cannot |
| Motions.CopyView.SetMark | crates/psmux/src/copy_mode.rs:1336-1340 | the mark records offset, row and column and nothing else changes |
| Motions.CopyView.JumpToMark | crates/psmux/src/copy_mode.rs:1347-1356 | cursor and mark change places, the offset clamped to the history; the cursor is inside the pane exactly when the mark was |
| Motions.CopyView.StepLine | crates/psmux/src/copy_mode.rs:1890-1894 | moves one line within the buffer and tells whether it moved |
| Motions.CopyView.NextParagraph | crates/psmux/src/copy_mode.rs:1903-1921 | stops at the first blank line after the text ahead or at the buffer's end, or when the walk limit is used up |
| Motions.CopyView.PrevParagraph | crates/psmux/src/copy_mode.rs:1927-1943 | the same towards the top |
| Motions.JumpTwice | crates/psmux/src/copy_mode.rs:1347-1356 | jumping twice restores the cursor always, and the mark exactly when it was within the history |
| Motions.PageMoves | crates/psmux/src/copy_mode.rs:560-611 | the view moves by the clamped page, the cursor row only when an end stops the view, and the line by one to less than two pages unless it reaches an end |
| Motions.PageLands | crates/psmux/src/copy_mode.rs:560-611 | a full page is the height less two lines, a half page half the height, one line in a pane of at most two rows, and the view moves by exactly that where the buffer allows, else the row does |
| Motions.BlankExactlyWhen | crates/psmux/src/copy_mode.rs:1873-1878 | a line is blank exactly when no cell of it holds anything but white space |
| Motions.PageUpUndone | crates/psmux/src/copy_mode.rs:560-611 | a page down undoes a page up exactly when the view had the whole page, or was held at both ends and the row had it |
| Motions.PageDownUndone | crates/psmux/src/copy_mode.rs:560-611 | the same for a page up after a page down |
| Motions.PagesReachEnd | crates/psmux/src/copy_mode.rs:560-611 | repeated page motions reach the first or last line of the buffer |
| Search.ReadAllLines | crates/psmux/src/copy_mode.rs:1000-1023 | overlapping screenfuls give every absolute line once, and the view is put back |
| Search.Ascending | crates/psmux/src/copy_mode.rs:1087-1102 | the scan that advances by one after a match collects the matches of every line |
| Search.AllMatchesAre | crates/psmux/src/copy_mode.rs:1076-1104 | the matches are exactly the occurrences of the query, overlapping ones included, each once and in buffer order |
| Search.LineMatchesAre | crates/psmux/src/copy_mode.rs:1087-1102 | the same for one line |
| Search.ForwardOrder | crates/psmux/src/copy_mode.rs:1105-1124 | the list is a rotation of the matches headed by the nearest strictly past the cursor, if any |
| Search.BackwardOrder | crates/psmux/src/copy_mode.rs:1105-1124 | backward it is a rotation of the reversed matches headed by the nearest strictly before the cursor, if any |
| Search.NextTimesIs | crates/psmux/src/copy_mode.rs:1127-1139 | pressing `n` repeatedly with wrapping advances round the list |
| Search.CycleVisitsAll | crates/psmux/src/copy_mode.rs:1127-1139 | a full cycle of `n` visits each match exactly once and returns |
| Search.PrevUndoesNext | crates/psmux/src/copy_mode.rs:1389-1400 | `N` undoes `n` exactly with wrapping, before the last match, or with a single match |
| Search.ScrollToLine | crates/psmux/src/copy_mode.rs:1030-1058 | the cursor lands on the asked line exactly when the pane has four rows, the line is in the first screenful, or it is on view; otherwise one line early |
| Search.LandsOneLineEarly | crates/psmux/src/copy_mode.rs:1030-1058 | with three rows and ten lines of history, asking for line 5 lands on line 4 |
| Search.MatchesInRange | crates/psmux/src/copy_mode.rs:1076-1124 | every match of the list is on an existing line and inside the pane's width |
| Search.Searcher.SearchBuffer | crates/psmux/src/copy_mode.rs:1076-1124 | the match list is all occurrences over the whole buffer in cycle order from the cursor, and the view goes to the head |
| Search.Searcher.Step | crates/psmux/src/copy_mode.rs:1127-1139 | moves to the neighbouring match, wrapping only when that is on, and brings it under the cursor |
| Painted.PaintedIsYanked | crates/psmux/src/layout.rs:1117-1160 | with both ends on view, a cell is highlighted exactly when the yank copies it, in every mode and whatever was scrolled in between |
| Painted.PaintedExactlyWhen | crates/psmux/src/layout.rs:1117-1160 | for every mode and any two ends the whole pane is painted as it is yanked exactly when the selection has a line on view and its columns survive the clamp, or what the clamp paints lies beyond the pane |
| Painted.ScrolledOffEndPaintsLess | crates/psmux/src/layout.rs:1117-1160 | a character selection anchored at column 5 of a line that has scrolled off copies the first cell on view and does not paint it |
| Ownership.App.EnterCopyMode | crates/psmux/src/copy_mode.rs:19-62 | the focused pane is frozen as it is shown, cursor, offset, selection, mark and pending keys start afresh, the search memory stays, and the pane is marked |
| Ownership.App.ExitCopyMode | crates/psmux/src/copy_mode.rs:67-91 | the pane drops its state and its frozen copy and shows the live screen at the bottom |
| Ownership.App.SaveCopyState | crates/psmux/src/copy_mode.rs:137-167 | the focused pane, and no other, holds every carried field and the search prompt |
| Ownership.App.RestoreCopyState | crates/psmux/src/copy_mode.rs:172-202 | every carried field and the mode are the focused pane's own, or the mode is passthrough |
| Ownership.App.SwitchFocus | crates/psmux/src/copy_mode.rs:208-224 | the pane that is left keeps its state and the new one's is adopted |
| Ownership.App.Retarget | crates/psmux/src/copy_mode.rs:259-280 | nothing if the focus did not move; otherwise the focused pane's own mode, or passthrough without cursor and selection |
| Ownership.App.CreatePane | crates/psmux/src/pane.rs:617-633 | a new pane takes the focus outside copy mode and the old one keeps its state |
| Ownership.App.KillPane | crates/psmux/src/pane.rs:1668-1716 | the pane is gone and the survivor is in its own mode |
| Ownership.App.SyncSnapshots | crates/psmux/src/copy_mode.rs:112-133 | the loop over all panes installs and drops frozen copies and changes nothing else |
| Ownership.StepKeepsOwned | crates/psmux/src/copy_mode.rs:93-133 | every operation keeps: the mode is copy or search exactly when the focused pane has saved state, and exactly the panes with state are frozen |
| Ownership.RunKeepsOwned | crates/psmux/src/copy_mode.rs:232-248 | so it holds over every run of enter, exit, switch, create, kill, editing, output and sync |
| Ownership.StartIsOwned | crates/psmux/src/types.rs:2192-2250 | it holds when the program starts |
| Ownership.SyncIsExact | crates/psmux/src/copy_mode.rs:93-133 | from any state sync leaves exactly the panes in copy mode frozen, keeps states and live screens, and is idempotent |
| Ownership.SyncIsIdle | crates/psmux/src/copy_mode.rs:93-133 | through the ordinary operations there is nothing to reconcile |
| Ownership.EnterStartsAtView | crates/psmux/src/copy_mode.rs:19-62 | copy mode starts on the lines and offset on screen, with the terminal's cursor, nothing selected, marked or pending, and the last search kept |
| Ownership.ExitKeepsTheRest | crates/psmux/src/copy_mode.rs:67-91 | leaving copy mode drops selection, cursor, offset and the pane's saved state and shows the live screen at its bottom; every other field and pane stays |
| Ownership.SearchOutlivesCopyMode | crates/psmux/src/copy_mode.rs:19-91 | leaving copy mode and entering it again on this or another pane finds the last query, its matches, the index and the direction |
| Ownership.RetargetDropsTheReader | crates/psmux/src/copy_mode.rs:259-280 | focus that moves without parking to a pane outside copy mode drops selection, cursor and offset and nothing else |
| Ownership.StepTouchesOnlyFocused | crates/psmux/src/copy_mode.rs:232-248 | apart from an application writing to its own screen, an operation changes no pane but the focused one |
| Ownership.ComesBack | crates/psmux/src/copy_mode.rs:204-224 | leaving a pane, any run that neither focuses nor kills it, and coming back restore its mode, every carried field and what it shows |
| Ownership.KillBringsBackLastParked | crates/psmux/src/pane.rs:1668-1716 | after a kill that takes the focus from a living pane, it comes back with the cursor and mode it last saved |
| Ownership.StepMakesStale | crates/psmux/src/copy_mode.rs:204-280 | of all operations only an edit that changes the cursor, a carried field or the mode leaves the focused pane's saved state stale |
| Ownership.UpToDateExactlyWhen | crates/psmux/src/copy_mode.rs:204-280 | after any run from the start the saved state is up to date exactly when the last edit since the pane was entered or focused, if any, left everything as it was |
| Ownership.KillKeepsCursorExactlyWhen | crates/psmux/src/pane.rs:1678-1716 | over any run from the start, a kill that moves the focus to a third pane, any run that leaves the first alone, and back: cursor and mode return exactly when the last edit left them as they were |
| Ownership.KillLosesCursor | crates/psmux/src/pane.rs:1678-1716 | create, create, focus a pane, enter copy mode, move the cursor, kill another pane so that a third takes the focus, come back: the movement is lost, whatever it was, and if it scrolled, the saved offset is not the shown one |
| Ownership.StepInStepExactlyWhen | crates/psmux/src/pane.rs:1678-1716 | any operation keeps every recorded offset the shown one exactly unless it is a kill that takes the focus from a reader whose saved offset is not the live one |
| Ownership.StepKeepsInStep | crates/psmux/src/copy_mode.rs:29-40 | an operation that is no kill of a pane out of focus that moves the focus keeps every recorded offset the one its pane is shown at |
| Ownership.RunKeepsInStep | crates/psmux/src/copy_mode.rs:29-40 | so it is over every run in which a kill moves the focus only from the pane it kills |
| Ownership.RunInStepExactlyWhen | crates/psmux/src/copy_mode.rs:204-280 | over every run from the start the recorded offsets are the shown ones at every point exactly when no kill interrupts a reader whose last edit had scrolled |
| Ownership.RunKeepsReading | crates/psmux/src/types.rs:361-389 | what a pane in copy mode shows does not change for as long as it stays in copy mode, whatever the application writes |
| Ownership.LeavingShowsLastScreen | crates/psmux/src/types.rs:361-389 | leaving copy mode shows the last screen the application wrote, unscrolled, whatever happened in between |
| RunRows.FlagsTell | crates/psmux/src/layout.rs:51-59 | the flag byte and the underline code determine every mode of a cell's style |
| RunRows.SerializeRow | crates/psmux/src/layout.rs:65-133 | the simple column loop builds the simple runs of the visited columns |
| RunRows.SnapshotRow | crates/psmux/src/layout.rs:978-1054 | the fast column loop builds the fast runs of the visited columns |
| RunRows.FastLossless | crates/psmux/src/layout.rs:978-1054 | expanding the runs gives back every visited character with all attributes and link, the widths add up, and neighbouring runs differ |
| RunRows.SimpleIsFast | crates/psmux/src/layout.rs:65-133 | without a troublesome missing cell both encoders are in the same state after every column |
| RunRows.TroubleSeparates | crates/psmux/src/layout.rs:113-126 | from the first troublesome missing cell on their runs differ for good |
| RunRows.FastIsSimpleExactlyWhen | crates/psmux/src/layout.rs:50-137 | the two encoders agree exactly when no missing cell follows one that differs from a blank in its underline alone |
| RunRows.ColumnsWellFormed | crates/psmux/src/layout.rs:71-133 | every visited column has a text, and none is missing when every column has a cell |
| RunRows.FullRowsAgree | crates/psmux/src/layout.rs:976-1057 | with a cell in every column both build the same lossless, maximal runs |
| RunRows.CellIsTold | crates/psmux/src/layout.rs:71-95 | a column carries its cell's own colours through the palette, its link, its underline style and colour, and one bit for each mode: dim 1, bold 2, italic 4, underline 8, inverse 16, blink 32, hidden 64, strike 128 |
| RunRows.ColumnsShow | crates/psmux/src/layout.rs:71-133 | the visited positions go from column 0 by each text's width and show each cell's text in its own attributes |
| RunRows.RunsShowCells | crates/psmux/src/layout.rs:976-1057 | expanding the runs shows the row's cells at the visited positions, in text and attributes: the fast runs of every row, and the simple runs of every row with a cell in each column |
| RunRows.MissingCellDiffers | crates/psmux/src/layout.rs:113-126 | a row of one cell in a pane of two columns on which the simple form makes one run and the fast form two |

## Left out

- Text is a sequence of characters and positions are character positions; white space and digits are ASCII, and bytes of UTF-8, grapheme clusters and Unicode case are not modelled.
- LayoutApply.Window.ApplyLayout: pane counts are unbounded, where the code narrows a count to 16 bits before dividing 100 by it; resizing the panes afterwards is not modelled.
- PaneTree.SplitTilesArea: sizes and sums are exact numbers, where the code adds them in 32 bits.
- LayoutText.ChecksumDetectsOneByte: only single-byte changes; the checksum is not verified on reading, as in the code.
- Glob.GlobMatch: the case-insensitive wrapper, which lowers both sides first, is not modelled.
- CommandLine.LineIsRead: arguments and commands have one space between them, and a bare part holds no backslash.
- IfStack.Reader.ParseConfigContent: brace blocks of `if-shell`, which swallow directives while open, are left out; evaluating a condition and running a line are parameters, and `%hidden` is run like a plain line.
- IfStack.WrittenIsRead: a line that opens a brace block is not among the written ones.
- IfStack.ConfigTextMeaning: for the same reason it speaks of scripts without brace blocks; conditions are written on one line in one pair of double quotes and do not themselves begin or end with a quote; continued lines are `IfStack.ContinuedLinesAreOne`.
- Flags.ValidateFlagArguments: the tables that give a command its template and extra flags are parameters; a command without a template is accepted by the code at once.
- EnvHandoff.AdoptionEndToEnd: reading the operating system's environment, its own comparison of names and upper-casing are parameters; upper-casing must keep settable names and unsettable ones apart and, of the names that occur, tell apart the same ones as the operating system; names with an `=` inside are excluded, as `BlockRoundTrip` shows they must be.
- Terminal.Screen.SetScrollback: rows on the screen and in the history do not change while copy mode reads them; reflow on resize and the parser that fills the screen are left out.
- Yank.CopyState.YankSelection: the clipboard, the OSC 52 escape and a configured copy command are left out; without a recorded endpoint the yank does nothing, as in the code.
- Yank.YankOnCells: the pane has a column and the end columns are below 65,535.
- Capture.CapturePaneRange: a screen has at least one row; the pane's size is the screen's own.
- Sgr.StyleParamsApply: the interpreter reads the parameters that a capture can emit and the forms next to them; colon forms of the extended colours are not read.
- Styled.RowShows: cells hold no escape or newline character.
- Motions.CopyView.MoveCursor: 16-bit sums wrap as in a release build, where a debug build panics; panes are at most 32,767 cells wide and high; the cursor position is known, where the code falls back on the terminal's cursor.
- Search.Searcher.SearchBuffer: a row's text and the folding of case are parameters that keep a text within the pane's width; the byte step after a match is a character step, so texts are taken to be ASCII.
- Painted.PaintedExactlyWhen: blanking and dimming of cells are left out.
- Ownership.App.CreatePane: always succeeds; tree and window bookkeeping, the choice of the focused pane and starting processes are left out.
- Ownership.App.KillPane: another pane survives; which one takes the focus is a parameter, since the list of recently used panes is left out.
- Ownership.RunKeepsOwned: the other modes of the program (prefix, prompts, menus, choosers, popups, clock) are left out, and so are the mouse fields and the pinned endpoint offset, which a pane's saved state does not carry.
- Ownership.App.EnterCopyMode: locks that a crashed thread has left unusable are left out.
- RunRows.SerializeRow: run widths are exact sums, where the code saturates or wraps them at 16 bits; a link is its number, where the code publishes its address, so two links to one address count as different; naming a colour is left out.
- The alternate-screen guess and the blanking of squelched panes in the screen dumps.
- Word motions, bracket matching, jumps to a character, selection of text objects, the line number gutter and key tables.
- Sessions, servers, tunnels, the clipboard, pseudo-consoles, registry and port files, logging and tracing.
- Regular expressions, time formats, shell commands in formats, option tables and the dispatch of commands.
