# darcs-patch core in Dafny

A model of the core of darcs-patch. darcs-patch is a C++ re-implementation of the
patch theory of the darcs version control system. The model covers five
parts.

- **Text buffer** (`text_buffer.dfy`, module `TextBuffer`). The character
  buffer behind every string: `BasicStringAdapter`, `PointerAdapter` and
  `CharAdapter` in `include/adapter.h`. It covers position and length
  clamping, `line_count`, `lines()`, `insert`, `append`, `erase`, `replace`,
  `resize` and the two `init` forms.
- **Persistent sequences** (`sequences.dfy`, module `Sequences`). The `FL`
  and `RL` lists of `include/darcs_types.h`. Each is a window (`Slice`) onto a
  base list shared through a `shared_ptr`. The model covers slicing, indexing,
  `emplace`, `push`, which shares or copies its base, `extract`, equality,
  the Nil test, `ToFL` and `ToRL`. It also covers `Maybe::value_ref`,
  `Map::insert`, `Map::lookup` and `LazyValue`.
- **Patches** (`patches.dfy`, module `Patches`):
  - the primitive patches: file creation, file removal, hunks and token
    replacements;
  - their `invert`;
  - `PatchInfo`, `AnchorPath`, `Core_FP` and `Named`;
  - the constructors of `src/darcs.cpp`.
- **Commutation** (`commute.dfy`, module `Commute`; `sequence_commute.dfy`,
  module `SequenceCommute`):
  - `commuteHunkLines`, `tryTokReplaces`, `commuteFP`, `speedyCommute`,
    `commuteFileDir`, `cleverCommute` and `commute2` on primitive patches;
  - `commuterIdFL`, `commuterRLId`, `right_or_left` / `commuteRLFL` and
    `commute1_` on lists of them;
  - `commute1` and `commuteFL` on named patches.
- **Dependency graph** (`deps.dfy`, module `Deps`; `deps_scenarios.dfy`,
  module `DepsScenarios`). `allDeps`, `addDeps`, `foldDeps` and
  `depsGraph` of `include/darcs_patch.h`. The scenario module works out the
  graph of one sample history of the driver.

`wrappers.dfy` holds the `Option` and `Result` types. A C++ exception
becomes a `Failure` carrying the exception's message.

What is proved, in brief:

- `lines()` and `line_count` agree with a reference cutting of the text at
  newlines, and `lines()` loses nothing but a final newline.
- `push`, `extract`, `ToFL` and `ToRL` are specified on the items each list
  iterates over. These specifications include the effects of base sharing:
  - a push changes other lists over the same base;
  - a copying push reverses;
  - `ToFL` reverses its input.
- `commuteHunkLines` allows a commute exactly when the hunks are clear of
  each other, or touch with no empty line list, and the new line numbers are
  stated for each case. It is symmetric and commutes with inversion.
  Whenever it allows a commute, both orders of the hunks have the same
  effect on every file.
- `commuteFP` is stated exactly for every kind pair it decides: two hunks,
  a hunk followed by a token replacement, and two token replacements.
- `commute2` satisfies two of the laws stated at the head of
  `include/darcs_commute.h`:
  - the invert law, for every `tryTokReplace`;
  - the symmetry law, for a `tryTokReplace` that the opposite replacement
    undoes.
- `right_or_left` as intended computes the same as a plain row-by-row
  reference commute. The one-patch commuters are exactly chains of
  successful steps.
- `right_or_left` as written agrees with that reference while the forward
  list has fewer than two patches more than the reverse one. Beyond that it
  returns one patch too many, because a `push` re-slices a base shared with
  an extracted patch. Named patches that hold one patch each never reach
  this case.
- Every graph `depsGraph` returns has these properties:
  - its keys are the identities of the history;
  - direct dependencies are keys and are among the indirect ones;
  - the indirect set is the closure of the direct set;
  - dependency is transitive;
  - no patch depends on itself;
  - entries are never revised as the history grows.
- Each of the three steps of `foldDeps` is stated on its own: a known
  patch is passed over, a commuting patch moves to the patches passed over,
  and a blocked patch becomes a dependency.

Where the code and its documentation disagree, the model follows the code:

- `foldDeps` walks back over the patches *before* the one whose
  dependencies it computes.
- `addDeps` puts `j` into the indirect set, so every direct dependency is
  also an indirect one.
- `FL == NilFL` tests for the window at 0. A window can be empty without
  being Nil.
- `Map::insert` never overwrites an existing key, so a repeated identity
  keeps its first entry.
- `ToFL` pushes onto the front, so it reverses the order.

## Model

| member | source | states |
|---|---|---|
| TextBuffer.ClampPos | include/adapter.h:129-132 | SIZE_MAX and any position at or past the end become the size; other positions are kept |
| TextBuffer.ClampLength | include/adapter.h:134-137 | the clamped end index: 0 at the end of the buffer, the size for SIZE_MAX, otherwise `p + len` taken modulo 2^64 and capped at the size |
| TextBuffer.ClampEnd | include/adapter.h:134-137 | the intended end: between `p` and the size, and covering `min(len, size - p)` characters |
| TextBuffer.ClampLengthWraps | include/adapter.h:134-137 | start 2 and length SIZE_MAX-1 in a 5-character buffer: the clamp wraps to end 0, before the start; the saturating end is 5 |
| TextBuffer.PiecesSplit | include/adapter.h:416-444 | cutting at newlines gives one piece more than there are newlines, no piece holds a newline, and joining the pieces with newlines gives the text back |
| TextBuffer.SplitLinesRoundTrip | include/adapter.h:416-444 | the lines hold no newline, and joining them (plus the final newline, if any) restores the text |
| TextBuffer.PiecesOfJoin | include/adapter.h:416-444 | cutting lines joined with newlines, none of which holds a newline, gives the lines back |
| TextBuffer.SplitLinesUnique | include/adapter.h:416-444 | the lines of `lines()` are the only lines that hold no newline, are absent exactly for the empty text, and join back to the text |
| TextBuffer.SingleLine | include/adapter.h:416-444 | text without a newline is one line, or none when empty |
| TextBuffer.OnlyNewLines | include/adapter.h:416-444 | `n` newlines are `n` empty lines |
| TextBuffer.LineCountVersusLines | include/adapter.h:59-72 | `line_count` exceeds the number of `lines()` by one exactly when the text ends with a newline |
| TextBuffer.EraseAsWritten | include/adapter.h:495-529 | erase as written: always a prefix of the text, of length the size minus the clamped end index when the clamped position is inside the text, the whole text otherwise |
| TextBuffer.EraseRange | include/adapter.h:495-529 | the intended erase: the prefix before the clamped position is kept, and the text after the clamped end follows it |
| TextBuffer.EraseKeepsWrongPart | include/adapter.h:495-529 | erase(1, 2) of "abcdef" leaves "abc" instead of "adef"; erase(2, 0) removes two characters instead of none |
| TextBuffer.ReplaceAsWritten | include/adapter.h:101-121 | replace as written: `what` inserted at the clamped position, or at the end when that lies past it, into the prefix that erase as written keeps when handed the clamped end index as its length; nothing is erased when that index is 0 or the position is at the end |
| TextBuffer.ReplaceRange | include/adapter.h:101-121 | the intended replace: the prefix, then `what`, then the text after the clamped end |
| TextBuffer.ReplaceKeepsWrongPart | include/adapter.h:101-121 | replace("X", 1, 2) of "abcdef" gives "aXb" instead of "aXdef" |
| TextBuffer.Inserted | include/adapter.h:470-493 | `what` sits at the position; the text before and after is unchanged; the length is the sum |
| TextBuffer.Buffer.constructor | include/adapter.h:320-322 | the default adapter holds the empty text |
| TextBuffer.Buffer.Length | include/adapter.h:412-414 | the number of characters before the terminator |
| TextBuffer.Buffer.Init | include/adapter.h:358-380 | copies up to the first end-of-file character, which is not part of the text; a null pointer gives the empty text |
| TextBuffer.Buffer.InitLength | include/adapter.h:381-415 | copies exactly `length` characters; a null pointer gives the empty text |
| TextBuffer.Buffer.LineCount | include/adapter.h:59-72 | the counting loop gives 0 for the empty text, otherwise the number of newlines plus one |
| TextBuffer.Buffer.Lines | include/adapter.h:416-444 | the line-splitting loop returns exactly the reference lines, none of which holds a newline |
| TextBuffer.Buffer.Insert | include/adapter.h:470-493 | the new text is the old one with `what` inserted at the clamped position |
| TextBuffer.Buffer.Append | include/adapter.h:95-97 | the new text is the old one followed by `what` |
| TextBuffer.Buffer.Erase | include/adapter.h:495-529 | the new text is what the code as written computes: the first `size - end` characters |
| TextBuffer.Buffer.EraseFixed | include/adapter.h:495-529 | the new text is the intended erase of the range |
| TextBuffer.Buffer.Replace | include/adapter.h:101-121 | the new text is what the code as written computes: the end index is passed to erase as a length, then `what` is inserted |
| TextBuffer.Buffer.ReplaceFixed | include/adapter.h:101-121 | the new text is the intended replacement of the range |
| TextBuffer.Buffer.Resize | include/adapter.h:446-468 | the length becomes the capacity, the common prefix is kept, and an equal capacity changes nothing |
| Sequences.MakeSlice | include/darcs_types.h:222-229 | the start is kept and an end below the start is raised to it |
| Sequences.SliceIn | include/darcs_types.h:435-446 | fails ("ATTEMPTING TO SLICE OUT OF RANGE") exactly when the start is inside and the end past the end; a start at or past the end gives the window at 0 |
| Sequences.Base.Get | include/darcs_types.h:472-483 | succeeds exactly for an index below the length, with the item there; otherwise "INDEX OUT OF RANGE" |
| Sequences.Base.Emplace | include/darcs_types.h:518-519 | a forward base gains the item in front, a backward base at the back |
| Sequences.IsNil | include/darcs_types.h:736-738 | the Nil test implies an empty window |
| Sequences.Size | include/darcs_types.h:852-854 | the number of items the list iterates over |
| Sequences.Nil | include/darcs_types.h:716-727 | a fresh empty base with the window at 0 |
| Sequences.FromItems | include/darcs_types.h:716-727 | the initializer list is emplaced in order, so an FL iterates over it backwards and an RL forwards |
| Sequences.ReverseReverse | include/darcs_types.h:1215-1220 | reversing twice gives the sequence back |
| Sequences.Push | include/darcs_types.h:856-872 | sharing push: the shared base gains the item and the new window is [0, end+1). Copying push: the old base is untouched, the copy holds the window reversed (FL) or in order (RL) plus the item, and it only succeeds when the window starts at 0 |
| Sequences.ExtractFL | include/darcs_types.h:1050-1060 | on a non-empty window: the first item, and the rest over the same base; on an empty window it reads the base at the start, throwing past the end |
| Sequences.ExtractRL | include/darcs_types.h:1083-1093 | on a non-empty window: the last item, and the rest; on an empty window it reads before the end, throwing at 0 |
| Sequences.Equal | include/darcs_types.h:708-710 | list equality, through `compare_3_iterator` over `cbegin`/`cend`: true exactly when the two lists iterate over the same items |
| Sequences.ToFL | include/darcs_types.h:1215-1220 | the FL holds the RL's items in reverse order |
| Sequences.ToRL | include/darcs_types.h:1236-1241 | the RL holds the FL's items in the same order |
| Sequences.SharedPushChangesOthers | include/darcs_types.h:856-872 | after `b := a.push(2)` with `a` holding [1], `a` holds [2] and `b` holds [2, 1] |
| Sequences.CopyingPushReverses | include/darcs_types.h:856-872 | pushing 4 onto an FL holding [3, 2] that stops short of its base gives [4, 2, 3] |
| Sequences.PushAfterExtractRestoresHead | include/darcs_types.h:1050-1060 | pushing 0 onto the rest [2] of [1, 2] gives [0, 1, 2], and the rest then reads [1] |
| Sequences.EmptyButNotNil | include/darcs_types.h:736-738 | an empty window that is not Nil, whose extract reads an item outside it |
| Sequences.ExtractFromFL | tests/DarcsPatch_Tests.cpp:69-75 | extract on FL {1, 2, 3, 4} gives 4 |
| Sequences.ExtractFromRL | tests/DarcsPatch_Tests.cpp:117-124 | extract on RL {1, 2, 3, 4} gives 4 |
| Sequences.ExtractAfterPushes | tests/DarcsPatch_Tests.cpp:39-66 | pushing 1, 2, 3 onto an empty FL and extracting gives 3 |
| Sequences.ValueOf | include/darcs_types.h:1285-1297 | the value of a Just; a throw ("attempting to obtain the value of nothing") exactly on Nothing |
| Sequences.MapInsert | include/darcs_types.h:1586-1595 | the key is added; existing entries, including one under the key itself, are unchanged |
| Sequences.Lookup | include/darcs_types.h:1601-1606 | Just the entry exactly when the key is present |
| Sequences.Lazy.constructor | include/darcs_types.h:2498 | holds the computation, not yet called |
| Sequences.Lazy.Get | include/darcs_types.h:2522-2530 | returns the computation's value and keeps a cached value unchanged |
| Patches.TypeOf | include/darcs_types.h:1698-1706 | type(): a different PATCH_TYPE tag for each kind of patch, as the overrides at src/darcs.cpp:10-22 and include/darcs_types.h:1755-1757, 1815-1817 return; Invert's contract uses it |
| Patches.Invert | include/darcs_types.h:1747-1821 | creation and removal swap; a hunk swaps its old and new lines at the same line; a token replacement swaps its tokens |
| Patches.InvertInvolutive | include/darcs_types.h:1759-1821 | inverting twice gives the patch back |
| Patches.InfoNamed | include/darcs_types.h:1861-1890 | the name is set and every other field is at its default |
| Patches.InvertFP | include/darcs_types.h:2275-2277 | same anchor path; the patch is one whose inverse is the original |
| Patches.MakeHunk | include/darcs_types.h:1796-1813 | a hunk at the line; its old and new lines hold no newline, are absent exactly for an empty text, and joined with newlines, plus the text's final newline if it has one, give the text back |
| Patches.HunkLinesDetermined | include/darcs_types.h:1796-1813 | any lines with those three properties are the hunk's lines, so the contract of MakeHunk fixes them |
| Patches.MakeNamedWithType | src/darcs.cpp:32-34 | identity PatchInfo(label), no explicit dependencies, the one patch under the default anchor |
| Patches.MakeNamedHunk | src/darcs.cpp:36-38 | a named patch holding the hunk that makeHunk builds |
| Patches.EditHistoryHunks | src/darcs_exe.cpp:68-81 | the "edit 1" and "edit 2" hunks are one-line hunks at line 1 |
| Patches.BlankLineHunks | src/darcs_exe.cpp:43-64 | five newlines are five empty new lines; a hunk of two empty texts changes nothing |
| Commute.TokReplaceAll | include/darcs_commute.h:477-499 | succeeds exactly when every line can be rewritten, giving each line rewritten, in order |
| Commute.TryTokReplaces | include/darcs_commute.h:477-499 | the loop computes the reference rewrite of every line |
| Commute.TokReplaceAllInverse | include/darcs_commute.h:477-499 | with a rewriter the opposite replacement undoes, rewriting back restores the lines |
| Commute.CommuteHunkLines | include/darcs_commute.h:501-519 | the hunks commute exactly when the second lies after the first one's new lines, or before its old lines, or touches them with none of the four line lists empty; a commuted pair either keeps the first hunk's line and shifts the second by the first's growth, or the other way round, with the moved hunk clear of the other |
| Commute.DisjointHunksCommute | include/darcs_commute.h:506-511 | a second hunk after the first one's new lines commutes to `(line2 - lenNew1 + lenOld1, line1)`; one before the first one's old lines to `(line2, line1 + lenNew2 - lenOld2)` |
| Commute.TouchingHunksCommute | include/darcs_commute.h:512-517 | touching hunks commute exactly when none of the four line lists is empty, with the same numbers as hunks clear of each other |
| Commute.InsertionsCommute | include/darcs_commute.h:506-518 | three lines inserted at line 1 and two at line 5 commute to (2, 1); two inserted at line 4, touching the first insertion, do not commute |
| Commute.CommuteHunkLinesSymmetric | include/darcs_commute.h:501-519 | commuting the result back restores the original line numbers |
| Commute.CommuteHunkLinesInverted | include/darcs_commute.h:501-519 | the inverted hunks in the opposite order commute to the swapped results |
| Commute.OverlappingHunksDoNotCommute | include/darcs_commute.h:501-519 | a hunk at the same line as a hunk that wrote lines does not commute with it |
| Commute.ApplyHunk | include/darcs_types.h:1790-1796 | a reference meaning of a FileHunk, which the core never applies (0-based line index): it applies exactly when the old lines stand at the line; the prefix is kept, the new lines sit at the line, and the rest follows |
| Commute.HunksCommuteOnFiles | include/darcs_commute.h:501-519 | whenever the hunks commute, both orders have the same outcome on every file |
| Commute.LaterHunkFirst | include/darcs_commute.h:501-519 | a hunk after the first one's new lines, applied first at its shifted line, gives the same outcome |
| Commute.SpeedyCommute | include/darcs_commute.h:121-133 | succeeds with the pair swapped exactly when the anchor paths differ; never fails |
| Commute.CommuteFP | include/darcs_commute.h:526-590 | an empty hunk swaps unchanged; it is undecided exactly for the kind pairs with no rule; two hunks commute exactly when commuteHunkLines does, keeping their line lists and taking its numbers; a hunk and a following token replacement commute exactly when the replacement rewrites every old and new line, the replacement moving in front unchanged and the hunk carrying the rewritten lines; two token replacements fail exactly when their token classes differ or they share a token, and otherwise swap unchanged; a success keeps the anchor and the shape of each patch |
| Commute.CommuteFileDir | include/darcs_commute.h:597-610 | different anchors swap unchanged; a success keeps the shapes |
| Commute.CleverCommute | include/darcs_commute.h:617-633 | a decided answer stands; an undecided one is retried on the inverted pair in the opposite order and a success inverted back |
| Commute.EverythingElseCommute | include/darcs_commute.h:640-650 | different anchors swap unchanged; a success keeps the shapes |
| Commute.Commute2 | include/darcs_commute.h:657-676 | succeeds exactly when speedyCommute or cleverCommute does; different anchors swap unchanged; a success keeps the shapes |
| Commute.CommuteFPInverted | include/darcs_commute.h:526-590 | commuteFP on the inverted pair in the opposite order is undecided or gives the inverted results |
| Commute.CommuteFPSymmetric | include/darcs_commute.h:526-590 | commuteFP of its own result gives the original pair back, or, for an undecided kind pair, its inverted form does |
| Commute.Commute2InvertLaw | include/darcs_commute.h:18-20 | if p;q commute to q';p', then invert q;invert p commute to invert p';invert q' |
| Commute.Commute2Symmetric | include/darcs_commute.h:14-16 | if p;q commute to q';p', then q';p' commute back to p;q (for a rewriter the opposite replacement undoes) |
| Commute.FileCreationBlocks | include/darcs_commute.h:526-590 | creation or removal on the same path commutes only with a hunk that changes nothing |
| SequenceCommute.CommuterIdFL | include/darcs_commute.h:981-1009 | moving a patch past a list keeps its length and is the identity on the empty list |
| SequenceCommute.CommuterIdFLSound | include/darcs_commute.h:981-1009 | every success is a chain of successful single commutes |
| SequenceCommute.CommuterIdFLComplete | include/darcs_commute.h:981-1009 | every chain of successful single commutes is what commuterIdFL computes |
| SequenceCommute.CommuterIdFLIndependent | include/darcs_commute.h:981-1009 | a patch that swaps unchanged with each patch passes the list unchanged |
| SequenceCommute.CommuterRLId | include/darcs_commute.h:1026-1049 | moving a patch back past a reverse list keeps its length and is the identity on the empty list |
| SequenceCommute.CommuterRLIdSound | include/darcs_commute.h:1026-1049 | every success is a chain of successful single commutes, newest first |
| SequenceCommute.CommuterRLIdComplete | include/darcs_commute.h:1026-1049 | every such chain is what commuterRLId computes |
| SequenceCommute.CommuterRLIdIndependent | include/darcs_commute.h:1026-1049 | a patch that swaps unchanged with each patch moves back past the list unchanged |
| SequenceCommute.RightOrLeft | include/darcs_commute.h:1056-1111 | right_or_left as intended: a success has the two list lengths swapped |
| SequenceCommute.RightOrLeftByRows | include/darcs_commute.h:1056-1111 | alternating between columns and rows computes the reference row-by-row commute |
| SequenceCommute.RLPastEmptyFL | include/darcs_commute.h:1056-1111 | passing an empty list changes nothing |
| SequenceCommute.RLPastFLColumn | include/darcs_commute.h:1056-1111 | the reference commute can take the first column first |
| SequenceCommute.RLPastFLIndependent | include/darcs_commute.h:1056-1111 | patches that pairwise swap unchanged pass each other unchanged |
| SequenceCommute.RightOrLeftAsWritten | include/darcs_commute.h:1056-1111 | right_or_left as written: a success keeps the left list's length, and the right list's length plus one exactly when "right" has at least two more patches to move than to pass (or "left" one more) |
| SequenceCommute.RightPastNothing | include/darcs_commute.h:1056-1111 | on the lists of `Sequences`: extracting y0 from [y0, y1] and pushing it back onto the rest gives [y0, y0, y1], which is what right_or_left as written returns for nothing to pass, where [y0, y1] was meant |
| SequenceCommute.RightOrLeftAsWrittenAgrees | include/darcs_commute.h:1056-1111 | outside that case the code as written computes right_or_left as intended |
| SequenceCommute.RightOrLeftAsWrittenIndependent | include/darcs_commute.h:1056-1111 | patches that pairwise swap unchanged: the left list comes back unchanged, and the right list unchanged or with the patch at the number of left patches repeated |
| SequenceCommute.CommuteRLFL | include/darcs_commute.h:1118-1131 | commuterRLFL as intended starts with "right" and computes the reference commute |
| SequenceCommute.CommuteRLFLAsWritten | include/darcs_commute.h:1118-1131 | commuterRLFL as written: the lengths, one patch more when the forward list has at least two more patches; with fewer, the intended commute |
| SequenceCommute.CommuteFLPairAsWritten | include/darcs_commute.h:683-706 | commute1_ as written: the lengths are swapped, except that the right list gains a patch when it has at least two more than a non-empty left list |
| SequenceCommute.CommuteFLPair | include/darcs_commute.h:683-706 | commute1_ as intended: the reference commute of the two lists |
| SequenceCommute.CommuteFLPairAsWrittenReverses | include/darcs_commute.h:683-706 | for a non-empty right list with fewer than two patches more than the left, the code as written is the intended commute with the left list reversed |
| SequenceCommute.DifferentPathsPassUnchanged | include/darcs_commute.h:683-706 | lists on different anchor paths pass each other unchanged; as written the left list comes back reversed, and a right list with at least two patches more than the left one comes back with its patch at the left list's length repeated |
| SequenceCommute.ThreePatchesPassOne | include/darcs_commute.h:683-706 | one patch passing three on another path: as written the middle one comes back twice; as intended all come back unchanged |
| SequenceCommute.CommuteFLPairReversesPayload | include/darcs_commute.h:683-706 | a two-patch list passing a patch on another path comes back swapped as written, and unchanged as intended |
| SequenceCommute.SingletonPayloads | include/darcs_commute.h:683-706 | on one-patch lists the two agree, and both are commute2 |
| SequenceCommute.Commute1 | include/darcs_commute.h:738-767 | an explicit dependency either way blocks; otherwise it succeeds exactly when the payloads commute, and each patch keeps its identity and explicit dependencies |
| SequenceCommute.CommuteFL | include/darcs_commute.h:946-974 | the moving patch and every patch it passes keep their identities and explicit dependencies |
| SequenceCommute.CommuteFLKeepsIdentities | include/darcs_commute.h:946-974 | commuterIdFL over commute1 keeps every identity and explicit dependency set |
| SequenceCommute.Commute1AsWritten | include/darcs_commute.h:738-767 | commute1 on commute1_ as written: an explicit dependency either way blocks; identities and explicit dependencies are kept; the payload lengths are swapped, plus one patch in the case above |
| SequenceCommute.OnePatchNamedCommute | include/darcs_commute.h:738-767 | on named patches holding one patch each, commute1 as written and as intended agree, and the results hold one patch each |
| SequenceCommute.CommuteFLOnePatch | include/darcs_commute.h:946-974 | moving a one-patch named patch past one-patch named patches gives the same with commute1 as written as with commute1 as intended |
| Deps.Idents | include/darcs_types.h:2252-2254 | every patch's identity is in the set |
| Deps.IdentsOnly | include/darcs_types.h:2252-2254 | the set holds nothing but identities of the list's patches |
| Deps.AllDeps | include/darcs_patch.h:50-55 | succeeds exactly for a key, with the union of its direct and indirect sets; a missing key throws |
| Deps.AddDeps | include/darcs_patch.h:62-65 | the indirect set plus `j` plus everything `j` depends on; a missing key throws |
| Deps.FoldDeps | include/darcs_patch.h:72-125 | succeeds when every earlier patch is a key; it only adds earlier identities to the direct set, never shrinks either set, and keeps direct within indirect |
| Deps.ClosureAdd | include/darcs_patch.h:62-65 | a new direct dependency adds itself and its dependencies to the closure |
| Deps.FoldKnown | include/darcs_patch.h:103-106 | a patch already among the indirect dependencies is passed over: it joins the patch and its dependencies, and the accumulator is kept |
| Deps.FoldCommutes | include/darcs_patch.h:108-113 | a patch that commutes past the patch and its dependencies leaves the accumulator unchanged; the commuted list replaces them and the commuted patch goes to the front of the patches passed over |
| Deps.FoldBlocked | include/darcs_patch.h:108-118 | a patch that does not commute joins the patch and its dependencies and becomes a direct dependency; it and its dependencies become indirect ones |
| Deps.FoldDepsClosure | include/darcs_patch.h:72-125 | the indirect set stays the closure of the direct set |
| Deps.DepsGraph | include/darcs_patch.h:132-179 | the keys are the identities of the history |
| Deps.DepsGraphWellFormed | include/darcs_patch.h:132-179 | direct dependencies are keys and among the indirect ones; indirect is the closure of direct; dependency is transitive |
| Deps.DepsGraphExtends | include/darcs_patch.h:132-179 | the graph of a history holds the graph of every prefix unchanged |
| Deps.DepsGraphNewEntry | include/darcs_patch.h:162-172 | a new identity's entry names only patches before it |
| Deps.DepsGraphEarlier | include/darcs_patch.h:132-179 | each entry, computed at its identity's first occurrence, names only patches before it |
| Deps.FoldedEntry | include/darcs_patch.h:162 | the fold of a patch over the earlier graph succeeds and names only earlier patches |
| Deps.DepsGraphClosureInKeys | include/darcs_patch.h:132-179 | a closure in a computed graph holds only identities of the history |
| Deps.ClosureInKeys | include/darcs_patch.h:62-65 | in a graph whose direct sets are keys and which is transitive, a closure holds only keys |
| Deps.ClosureTransitive | include/darcs_patch.h:62-65 | everything in a closure is a key whose indirect set is within the closure |
| Deps.NoSelfDependency | include/darcs_patch.h:132-179 | no patch depends on itself, directly or indirectly |
| Deps.FLCommuterOf | include/darcs_patch.h:109 | the folder's commuter is commuteFL |
| Deps.DepsGraphOf | include/darcs_patch.h:186-188 | depsGraph: keys are the identities, the graph is well formed, and no patch depends on itself |
| DepsScenarios.SampleBuilt | src/darcs_exe.cpp:68-81 | the sample patches are those makeNamedWithType_T and makeNamedHunk_T build |
| DepsScenarios.SampleIdents | src/darcs_exe.cpp:68-81 | the sample identities are distinct and there are no explicit dependencies |
| DepsScenarios.SingletonsBlock | include/darcs_commute.h:738-767 | one-patch named patches whose patches do not commute do not commute |
| DepsScenarios.CreateBlocksEdit1 | src/darcs_exe.cpp:71-73 | creating the file and adding its first line do not commute |
| DepsScenarios.Edit1BlocksEdit2 | src/darcs_exe.cpp:73-74 | adding a line and then changing it do not commute |
| DepsScenarios.SampleGraph1 | include/darcs_patch.h:132-179 | the creation depends on nothing |
| DepsScenarios.SampleFold2 | include/darcs_patch.h:72-125 | the first edit depends on the creation |
| DepsScenarios.SampleGraph2 | include/darcs_patch.h:132-179 | the graph of the first two patches |
| DepsScenarios.SampleFold3 | include/darcs_patch.h:72-125 | the second edit depends directly on the first and indirectly on the creation, which is then skipped |
| DepsScenarios.SampleGraph3 | include/darcs_patch.h:132-179 | the graph of the three patches, for any commuter that blocks |
| DepsScenarios.SampleGraph | src/darcs_exe.cpp:68-81 | the graph of creation, edit 1 and edit 2: edit 1 on the creation, edit 2 directly on edit 1 and through it on the creation |

## Left out

- Console output, debug logging, `print`/`to_string`, `renderDepsGraphAsDot` and SHA1 rendering are output only and are left out.
- Hashing, `cmp`/`compare_3` ordering and the `Comparable`/`Hashable` bases are left out. Sets and maps use Dafny's own equality.
- `tryTokReplace` and its character-class engine (`normalRegChars`) are left out. `tryTokReplace` is a parameter `tr` of the commuters. The symmetry lemmas assume only that the opposite replacement undoes a successful rewrite.
- A token replacement's tokens are non-empty strings, so the throw on an empty old token cannot arise in the model.
- Iterator-based `insert`/`erase` of FL and RL, `VectorAdapter`, `invertFL`/`invertRL` and `invert` of a pair are left out. No operation of the core calls them.
- Sequences.ExtractFL: the guard that skips the extraction when the output list already shares the base is not modelled. Every caller passes a freshly constructed output list.
- Sequences.ExtractRL: the same guard is not modelled, for the same reason.
- The commutation and dependency layers work on `seq` values. The base sharing of FL and RL, modelled in `Sequences`, is carried into them only where it changes a result: the repeated patch of right_or_left, in `RightOrLeftAsWritten`.
- SequenceCommute.RightOrLeftAsWritten: models lists that reach the end of their base, as every list that a push or commuterIdFL builds does. A forward list handed to commuteRLFL that stops short of its base's end, with an empty reverse list, makes the copying push throw; that case is not modelled. Neither is the change the sharing push makes to the base of the caller's list when commuteRLFL is called directly with an empty reverse list; commute1_ never does that.
- SequenceCommute.RightOrLeft: models right_or_left as intended. For a forward list with at least two patches more than the reverse one, the code returns one patch too many; `RightOrLeftAsWritten` models that.
- SequenceCommute.CommuteRLFL: built on the intended right_or_left, for the same reason.
- SequenceCommute.Commute1: built on the intended commute1_, and so is `CommuteFL` and the dependency graph built on it. `Commute1AsWritten` follows the code; `OnePatchNamedCommute` and `CommuteFLOnePatch` show that the two agree on named patches holding one patch each, which makeNamedWithType builds and commute1 keeps.
- Sequences.Equal: `compare_3_iterator`, through which the list comparison goes, is not part of this model; Equal compares the iterated items in order.
- Commute.ApplyHunk: indexes lines from 0. The sample histories number them from 1; commuteHunkLines only compares and shifts line numbers, so the offset does not change what it decides.
- TextBuffer: line numbers and list lengths are unbounded naturals. `size_t` wrap-around is modelled only in the clamping of positions and lengths.
- TextBuffer.Buffer.Resize: the characters a growing resize adds are a parameter `fill`, standing in for uninitialised memory.
- Deps: `LazyValue` is evaluated eagerly. `Sequences.Lazy` models the caching itself.
- Deps.FoldDeps: the commuteFL it calls is a parameter of type `FLCommuter`. `DepsGraphOf` supplies the real one.
- The square-commute law stated at the head of `include/darcs_commute.h` is not modelled.
- The driver programs (`src/darcs_exe.cpp`, `src/executable.cpp`) are left out. Only the first three patches of the darcs_t4 history are worked out, in `DepsScenarios`.
- The test macro that inserts into and erases from lists through iterators is left out, because iterator editing is left out.

## Findings

| source | as written | input that shows it | evidently intended | confidence | as-written member | corrected member |
|---|---|---|---|---|---|---|
| include/adapter.h:495-529 | `erase` keeps the first `size - end` characters, where `end` is the clamped end index | erase(1, 2) on "abcdef" gives "abc"; erase(2, 0) gives "abcd" | remove the characters in [pos, pos+length) and keep the rest ("adef", "abcdef") | not executed | TextBuffer.EraseKeepsWrongPart | TextBuffer.Buffer.EraseFixed |
| include/adapter.h:101-121 | `replace` passes the end index from `clamp_length` to `erase` as a length | replace("X", 1, 2) on "abcdef" gives "aXb" | "aXdef" | not executed | TextBuffer.ReplaceKeepsWrongPart | TextBuffer.Buffer.ReplaceFixed |
| include/adapter.h:134-137 | `clamp_length` computes `clamped_pos + len` in `size_t`, which wraps | size 5, position 2, length SIZE_MAX-1: end index 0, before the start | an end index capped at the size (5) | not executed | TextBuffer.ClampLengthWraps | TextBuffer.ClampEnd |
| include/darcs_commute.h:683-706 | `commute1_` turns the commuted left list back into an FL with `ToFL`, which reverses it | [create a, remove a] passing [create on the default path] comes back as [remove a, create a] | the left list keeps its order | not executed | SequenceCommute.CommuteFLPairReversesPayload | SequenceCommute.CommuteFLPair |
| include/darcs_commute.h:1056-1111 | when `left` has nothing to pass it returns the rest `bs` that `right` extracted, which still ends at the end of its base; `bs1.push(b1)` then shares that base and re-slices it from 0, so the extracted patch is back | commuteRLFL of an empty RL and [y0, y1] gives [y0, y0, y1]; through commute1_, [x] passing [y0, y1, y2] on another path gives [y0, y1, y1, y2] | every patch once: [y0, y1] and [y0, y1, y2] | not executed | SequenceCommute.RightPastNothing | SequenceCommute.RightOrLeft |
