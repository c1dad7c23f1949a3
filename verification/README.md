# The-valley: verified decision logic

This project models the decision logic that The-valley keeps behind its calls to
git, nix and cue, and proves what that logic promises. The calls themselves are
replaced by the values they return: refs and objects are maps, trees and commits
are acyclic graphs of objects, and what others do meanwhile is an arbitrary
function whose every step keeps the rules the source states.

`dafny verify dfyconfig.toml` checks everything.

| part | modules |
|---|---|
| shared | `Wrappers`, `Strings`, `Decimal`, `Utf8`, `Sums` |
| plan graph admission (`knot/graph.go`) | `KnotLayout`, `KnotShapes`, `KnotIndex`, `KnotCycles`, `KnotAdmission`, `KnotRefusals`, `KnotRuns`, `KnotGraphText` |
| canonical knot files (`knot/canon.go`, `knot/validate.go`) | `KnotText`, `KnotBody`, `KnotBodyTwice`, `KnotBodyEnds`, `KnotList`, `KnotFields`, `KnotRules`, `KnotCanon`, `KnotInverse` |
| signed statement text (`attest/text.go`) | `StatementDoc`, `StatementShapes`, `StatementOrder`, `StatementTables`, `StatementText`, `StatementTree`, `StatementParse` |
| valley-delta-v1 and tree difference (`delta`) | `DeltaCodec`, `TreeObjects`, `TreeNames`, `TreeStore`, `TreeCost`, `TreeDelta`, `DeltaBetween`, `DeltaLongPath` |
| strict JSON reader (`change/json.go`) | `JsonText`, `JsonParse`, `JsonInverse`, `JsonReader`, `JsonValues`, `JsonMeaning` |
| landing transaction (`integrator/refs.go`, `integrator/transfer.go`) | `LandingStore`, `LandingAnswer`, `Landing` |
| note bounds (`integrator/transfer.go`) | `NoteTree`, `NoteBounds`, `NoteTotals`, `HookReadable`, `HookGuards` |
| wake loop (`integrator/wake.go`) | `WakeLoop` |
| memory admission line (`attest/admit.go`) | `Admission` |
| ancestry, landings and families (`rebase`) | `CommitGraph`, `History`, `Ancestry`, `Mainline`, `Nest`, `Family` |
| globs (`derive/glob.go`) | `Glob`, `GlobSegments` |
| signed notes (`note/note.go`) | `Note`, `NoteShapes` |

Byte strings are `string`, one character a byte. Go's sorting of strings is
`Strings.Less`, a bytewise order.

## What was found

- **One full validation, done incrementally.** On a graph that was whole, a push
  is accepted exactly when the graph it leaves is whole and the push keeps the
  rules about what a push may change (`KnotAdmission.CheckRefinesValidate`).
  Along any run of accepted pushes no knot or comment goes, no knot changes its
  type or provenance, and no comment its author (`KnotRuns.KnotsStay`,
  `KnotRuns.AuthorsStay`).
- **Three canonical forms.** Each printer and parser undo each other, on every
  input, so each thing has one text: `StatementParse.ParseText`,
  `DeltaCodec.Parse`, `KnotInverse.ParsesExactly`. So every knot file of a graph
  that accepted pushes reach is, byte for byte, what `Render` writes of its knot
  (`KnotGraphText.EveryFileIsCanonical`).
- **One strict reader.** A JSON value has many texts, by white space and escapes,
  and is read from exactly those (`JsonInverse.ReadsExactly`). A string is the
  one whose code points have the UTF-16 units its text spells
  (`JsonMeaning.StringMeans`).
- **Where a promise is narrower than it reads.**
  - `delta/delta.go` writes a path's length in as many digits as it has and reads
    back at most ten, so a delta between two trees parses back exactly when every
    path is shorter than 10^10 bytes (`DeltaBetween.BetweenIsWellFormed`). Trees a
    checkout could hold do differ at longer paths (`DeltaLongPath.LongPathsExist`),
    in repositories with IDs of 20 bytes and of 32 (`DeltaLongPath.NoDeltaFits`),
    but a reading whose budget is below 10^10 bytes never returns one
    (`DeltaLongPath.BudgetedIsWellFormed`).
  - `delta/tree.go` counts its budget in 64 bits. One `spend` agrees with the
    unbounded sum exactly when the sum fits (`TreeDelta.SpendIsExact`), and while
    the sums fit, a whole reading stays within its bounds
    (`TreeDelta.Limit.StaysWithin`), so trees
    that need more than it are never compared (`TreeDelta.NeverPastTheBudget`).
  - `attest/admit.go` bounds a place in line at the largest 64-bit integer. After
    the one place below that ceiling, two runs that reserve and look both start
    and overrun the budget, since a place at the ceiling does not count
    (`Admission.CeilingOverrunsBudget`). Below it the budget always holds
    (`Admission.Directory.Kept`).
  - `hookReadable` counts a note set as its tree whenever no path opens with a
    slash and none is a directory of another. Both guards are needed. The tables
    it counts are the trees exactly when no path opens with a slash
    (`HookReadable.TablesAreTrees`), and `HookReadable.RefusesAFittingTree` gives
    sets it refuses whose trees meet every bound. With that guard it refuses no
    tree that fits (`HookGuards.RefusesOnlyUnfit`), and it counts every entry
    exactly when no path is a directory of another
    (`HookGuards.EntriesAreCounted`): a name that is both is in the tree twice and
    is counted once, and `HookGuards.AcceptsAnUnfitTree` gives sets it accepts
    whose trees are too big.
  - `knot/canon.go` says a normal body has no space at the end of its text. The
    code drops blank lines and leaves the last line's own spaces: `a ` becomes
    `a ` with a newline (`KnotBodyEnds.SpaceStays`). All that is said of the
    result holds exactly when the last line of the text that is not blank, less
    the carriage return of a `\r\n` after it, ends in no white space
    (`KnotBodyEnds.PromisedExactly`). Nor does `NormalBody` always leave a body it
    would not change again. It does exactly when no line it keeps ends in two
    carriage returns, and the last line, where no newline follows it, in none
    (`KnotBodyTwice.SettledExactly`): `a\r\r\n` and `a\r` both become `a\r\n`.

## Model

| member | source | states |
|---|---|---|
| `KnotIndex.Layout` | knot/graph.go:72-134 | accepts a listing exactly when it is a graph's layout, said with no order: only allowed entries, no path or ID twice, no empty or unlisted directory, both counts within limits; the index then holds exactly its files; and what is over the counts alone is refused for its limit |
| `KnotShapes.PathSays` | knot/graph.go:155-186 | a path is a file of the layout exactly when it is written as a knot's, of its type's directory, its ID and its slug, or as a comment's, of a knot's ID, a moment and an operation, and then it says just those |
| `KnotShapes.DirSays` | knot/graph.go:136-153 | a path is a directory of the layout exactly when it is a type's, the comments', or that of one knot's comments |
| `KnotShapes.StampExactly` | knot/graph.go:176-183 | a comment's stamp is exactly a moment that exists, leap days included, written out |
| `KnotShapes.SlugExactly` | knot/graph.go:160-172 | a slug is exactly words of lowercase letters and digits joined by single hyphens |
| `KnotCycles.CheckCycles` | knot/graph.go:470-524 | the coloured search refuses nothing exactly when every knot it reaches reads and no walk of either edge kind from the start set comes back to itself; a refusal names a real loop |
| `KnotCycles.Search.Visit` | knot/graph.go:483-513 | one visit leaves the knot done, ranked above all it names, or finds a loop on its own trail |
| `KnotAdmission.Check` | knot/graph.go:239-289 | a push is accepted exactly when nothing is deleted, few enough files changed, each changed file keeps its rules, comments by the rule on who may write and edit them, and the knots among them start no loop; which refusal comes first |
| `KnotAdmission.CheckKnotExactly` | knot/graph.go:363-461 | a changed knot passes exactly when it reads, its local edges resolve to the right types and the push may leave it as it is |
| `KnotAdmission.CheckCommentExactly` | knot/graph.go:300-361 | a changed comment passes exactly when it reads, is on a knot, and the pusher may write it so: a new one has no edit and the pusher as its author; one that was there keeps its author and records an edit, which names the pusher, who is that author or may edit the author's comments |
| `KnotAdmission.EditIsRefusedAs` | knot/graph.go:338-361 | which rule refuses an edit: the one on transitions for a changed author or another's comment, the one on provenance for an edit not recorded or not the pusher's |
| `KnotRefusals.UnfitCommentIsRefusedAs` | knot/graph.go:302-311 | which rule refuses a comment on no knot, one that cannot be read and one that is no comment's text |
| `KnotRefusals.NewCommentIsRefusedAs` | knot/graph.go:319-330 | a new comment its pusher may not write is refused for its provenance |
| `KnotRefusals.UnreadCommentIsRefusedAs` | knot/graph.go:330-337 | an edit of a comment that no longer reads is refused for why it does not |
| `KnotRefusals.UnfitFileIsRefusedAs` | knot/graph.go:402-413 | a knot's file that cannot be read is refused for its limit, and one that is no knot's text for what its reader says |
| `KnotRefusals.KnotIsRefusedAs` | knot/graph.go:402-430 | a knot that reads is refused exactly when it is not its file's, for its filename, then its directory, then an ID its slug does not give |
| `KnotRefusals.EdgesAreRefusedAs` | knot/graph.go:432-461 | a knot is refused for its first edge that does not resolve: parent, graduated_into, then blocked_by in order, as the wrong type or as none |
| `KnotRefusals.ChangeIsRefusedAs` | knot/graph.go:363-393 | a knot that a push may not leave as it is is refused, when new, for its provenance, and else for its move or its changed fields, or for why what it was does not read |
| `KnotAdmission.ValidateIsWhole` | knot/graph.go:232-237 | full validation accepts exactly a whole graph: every file in form, every local edge resolved, neither edge kind with a loop |
| `KnotAdmission.WholeExactly` | knot/graph.go:432-524 | a graph is whole exactly when every knot loads and its edges resolve, every comment reads and is on a knot, and no ring of knots each names the next by one kind of edge |
| `KnotAdmission.CheckRefinesValidate` | knot/graph.go:239-289 | on a whole graph, the incremental check accepts a push exactly when the graph it leaves is whole and the push keeps the push rules, though only changed files are read |
| `KnotAdmission.LoopIsOldOrTouched` | knot/graph.go:463-469 | when edges changed only at some knots, every loop was there before or runs through one of them |
| `KnotAdmission.CreationIsWhole` | knot/graph.go:239-289 | the push that creates a graph leaves a whole one |
| `KnotAdmission.EveryGraphIsWhole` | knot/graph.go:239-289 | every graph that a run of accepted pushes reaches is wholly valid |
| `KnotRuns.AuthorsStay` | knot/graph.go:338-340 | along any run of accepted pushes a comment stays and its author never changes |
| `KnotRuns.KnotsStay` | knot/graph.go:363-400 | along any run of accepted pushes a knot stays, with what a push may not change of it |
| `KnotGraphText.LoadsExactly` | knot/graph.go:402-430 | a knot of the graph loads exactly when its file is the canonical text of a knot under the file's own ID, type and slug |
| `KnotGraphText.EveryFileIsCanonical` | knot/graph.go:239-289 | in every graph accepted pushes reach, each knot's file is what Render writes of its knot, and its edges resolve |
| `KnotText.TextAppend` | knot/canon.go:53-63 | text after text that fits decides whether the whole fits: the rule on control characters reads one character at a time |
| `KnotText.Unquotes` | knot/canon.go:342-348 | a quoted string, whatever it escapes, is read back as itself |
| `KnotText.QuoteEnds` | knot/canon.go:221-227 | a quoted string's own closing quote is where the list reader finds its end, past escaped quotes, and it holds no newline |
| `KnotBody.Normalize` | knot/canon.go:311-324 | the loops that drop blank lines compute NormalBody |
| `KnotBody.NormalExactly` | knot/canon.go:308-324 | NormalBody keeps a body exactly when it is empty, or its first and last lines are not blank, it ends in a newline and holds no \r\n |
| `KnotBodyTwice.SettledExactly` | knot/canon.go:308-324 | NormalBody changes its own result no more, and that result is in normal form, exactly when no line of the text that it keeps ends in two carriage returns and none in one where no newline follows |
| `KnotBody.NormalizingTwiceDiffers` | knot/canon.go:311-312 | a text with \r\r\n whose normal body would change again |
| `KnotBodyTwice.LoneReturnDiffers` | knot/canon.go:311-324 | a text with no \r\n whose normal body would change again |
| `KnotBodyEnds.PromisedExactly` | knot/canon.go:308-324 | NormalBody's result has no blank line at either end, a newline at its end and no white space before it exactly when the text's last line that is not blank, less the carriage return a newline takes, ends in none |
| `KnotBodyEnds.SpaceStays` | knot/canon.go:308-324 | a text whose normal body keeps a space at its end |
| `KnotList.ReadFlowList` | knot/canon.go:212-260 | the loop that consumes a flow list reads what ReadList says of it |
| `KnotList.StringClose` | knot/canon.go:221-227 | the scan for a string's closing quote |
| `KnotList.ListReads` | knot/canon.go:212-260 | a list of any valid strings, with commas, quotes and escapes in them, reads back from renderList sorted and each entry once |
| `KnotList.QuoteReads` | knot/canon.go:197-209 | any valid string, quoted, reads back as a scalar |
| `KnotFields.PutSets` | knot/canon.go:147-194 | setting a field sets that one and no other |
| `KnotInverse.CheckedIsShaped` | knot/validate.go:11-147 | a knot that keeps the rules holds bare tokens where they are written bare, and text a file may hold everywhere else |
| `KnotRules.RulesExactly` | knot/validate.go:11-147 | the check passes a knot exactly when it keeps the rules, said with no order: its type, ID, status and title, which fields its type carries, each field's shape and limit, a claim whole or absent, and what a graduated idea names |
| `KnotRules.TextExactly` | knot/canon.go:53-63 | a text may be in a file exactly when it is valid UTF-8 and none of its code points is a control character but newline and tab, or one of two noncharacters |
| `KnotRules.SpaceExactly` | knot/canon.go:314-319 | what is trimmed as white space is exactly the code points that are, by their encoding |
| `KnotCanon.ParseFile` | knot/canon.go:102-145 | the loop over lines, setting a field at each, computes ParseKnot |
| `KnotCanon.Rendered` | knot/canon.go:263-306 | the buffer written line by line is Render |
| `KnotInverse.FrontSplits` | knot/canon.go:68-82 | the frontmatter ends at its own closing line, whatever fences the body holds |
| `KnotInverse.LineReads` | knot/canon.go:115-134 | a written line sets its own field to the value written, lists in order |
| `KnotInverse.NoFieldOf` | knot/canon.go:115-126 | a line whose key no field has is refused as a field no knot has where it is written as a key, and else as no line of a knot's |
| `KnotInverse.RenderFits` | knot/canon.go:53-63 | a rendered file keeps the text rule exactly when its body does |
| `KnotInverse.RenderedReads` | knot/canon.go:102-145 | what Render writes of an admissible knot reads as that knot, lists sorted and deduplicated and empty optional lists absent |
| `KnotInverse.ParsesExactly` | knot/canon.go:102-145 | a file reads as a knot exactly when it is what Render writes of it and the knot is admissible with its lists in order |
| `KnotInverse.WrittenOneWay` | knot/canon.go:40-42 | two admissible knots have one file exactly when they are one knot, the order and repeats of lists apart |
| `StatementDoc.KeySplits` | attest/text.go:354-383 | a path of segments is one key, and a key one path |
| `StatementShapes.KeyOrIndexExactly` | attest/text.go:488-503 | a segment of a written key is exactly a field's name or an index in 64 bits, with no leading zero |
| `StatementShapes.ValueExactly` | attest/text.go:388-408 | a value is written exactly when it is valid UTF-8, not empty, and none of its code points is a control character |
| `StatementTables.KeysAre` | attest/text.go:114-180 | the three types of statement have each its own keys, in its own order, between those of what it is about and those of where it came from |
| `StatementTables.NoOtherTable` | attest/text.go:114-160 | exactly the three types have a written form |
| `StatementOrder.PathsOrdered` | attest/text.go:240-284 | orderedKeys names keys in the reading order, so none twice |
| `StatementText.Flatten` | attest/text.go:310-352 | writes exactly the leaves below a key, each under its own key, or refuses what cannot be written |
| `StatementText.RenderText` | attest/text.go:187-234 | the text is one line for each leaf in the reading order, when the document can be rendered, and none otherwise |
| `StatementText.TextLists` | attest/text.go:187-234 | the lines are exactly the leaves, each once, in the reading order |
| `StatementTree.TreeNode.Insert` | attest/text.go:509-527 | adds one leaf in place and changes no other, or refuses a leaf at, above or below one there |
| `StatementTree.TreeNode.Document` | attest/text.go:529-570 | the document a tree is: dense indices an array, sets, nested objects, or none |
| `StatementTree.Rebuilds` | attest/text.go:529-570 | a tree with exactly a writable document's leaves is that document |
| `StatementParse.ParseText` | attest/text.go:414-463 | accepts exactly the texts renderText writes, and gives each the one document it was written from |
| `StatementParse.TextIsOne` | attest/text.go:414-463 | no two documents have one text |
| `DeltaCodec.Encode` | delta/delta.go:83-97 | writes the text of a delta |
| `DeltaCodec.Parse` | delta/delta.go:117-143 | accepts exactly the encodings of well-formed deltas, and each as the delta it encodes |
| `DeltaCodec.EncodeInjective` | delta/delta.go:83-97 | two well-formed deltas with one encoding are one |
| `DeltaCodec.CheckSides` | delta/delta.go:299-321 | refuses exactly when on one side an entry is under another |
| `TreeDelta.Limit.Spend` | delta/tree.go:134-150 | counts what fits both bounds in 64 bits, in time, and nothing else: exactly when it succeeds, what the counters then are, and the exact sums beside them, which grow by just what was spent |
| `TreeDelta.Limit.StaysWithin` | delta/tree.go:134-150 | while the sums fit 64 bits, the counters are the sums and no bound was passed |
| `TreeDelta.SpendIsExact` | delta/tree.go:134-150 | that count is the unbounded one exactly when the sum fits 64 bits |
| `TreeNames.NameExactly` | delta/delta.go:280-294 | a name fits exactly when it is no dot name, is not .git in any case, has no slash and at most 255 bytes |
| `TreeNames.TargetExactly` | delta/tree.go:495-505 | a symlink's target fits exactly when it is not empty, holds no NUL and is shorter than 4096 bytes |
| `TreeNames.OrderIsOfPaths` | delta/tree.go:400-445 | a tree's entries are in the order of the paths under them |
| `TreeDelta.Reader.Read` | delta/tree.go:263-291 | an object that is read was spent, all of its size and no more |
| `TreeDelta.Reader.ParseTree` | delta/tree.go:400-445 | a tree object's data is read as its entries exactly when it is those entries written out, in order, with names and modes that fit |
| `TreeDelta.Reader.Check` | delta/tree.go:357-397 | reads each subtree under a tree once and refuses only a tree a checkout could not hold |
| `TreeDelta.Reader.ReadIsHoldable` | delta/tree.go:357-397 | a reading that refused nothing holds only trees a checkout could hold, though shared subtrees were checked once |
| `TreeDelta.Reader.Diff` | delta/tree.go:510-566 | lists every path under a directory whose images differ between two trees, each once, though equal trees are skipped |
| `TreeDelta.Reader.ImageOf` | delta/tree.go:569-586 | an entry's mode and hash, each blob read once |
| `TreeDelta.Between` | delta/tree.go:87-117 | the delta is exactly the paths whose images differ between two flattened trees; it refuses only a tree a checkout could not hold, and is over budget only when something did not fit or came late, which it asks last of all; under a budget it spends at least the size of every tree reached from either side and of every blob it tells the image of, and an entry for each of those trees' entries |
| `TreeDelta.NeverPastTheBudget` | delta/tree.go:51-84 | so a reading that needs more bytes than its budget gives no delta unless the sum passes 64 bits |
| `DeltaBetween.ApplyGivesPost` | delta/tree.go:510-566 | applying the delta to the first tree gives the second at every path |
| `DeltaBetween.ReverseIsDelta` | delta/tree.go:510-566 | the delta the other way undoes it |
| `DeltaBetween.DeltaIsOne` | delta/tree.go:510-566 | two trees have one delta |
| `DeltaBetween.BetweenIsWellFormed` | delta/delta.go:117-143 | a delta between two trees is well-formed, so its encoding parses back to it, exactly when its path lengths have at most ten digits |
| `DeltaLongPath.BudgetedIsWellFormed` | delta/tree.go:51-84 | a delta read under a budget below 10^10 bytes is well-formed |
| `DeltaLongPath.LongPathsExist` | delta/tree.go:37-49 | trees a checkout could hold differ at paths as long as one likes, below 256^20, in stores with IDs of 20 or 32 bytes |
| `DeltaLongPath.NoDeltaFits` | delta/delta.go:146-193 | in a store with IDs of either length there are two such trees no delta of which is well-formed |
| `DeltaLongPath.LongPathFails` | delta/delta.go:146-193 | a delta of trees that differ at a path of 10^10 bytes is not well-formed |
| `JsonParse.PiecesRead` | change/json.go:205-267 | a string under any escapes, surrogate pairs included, reads as what they say |
| `JsonParse.NumberReads` | change/json.go:282-311 | a number is read as far as it goes |
| `JsonReader.Reader.Escape` | change/json.go:224-265 | an escape moves the reader over itself and gives what it stands for, a pair's two halves together, a half alone refused |
| `JsonReader.Reader.ReadString` | change/json.go:205-267 | the loop reads a string to its closing quote |
| `JsonReader.Reader.ReadNumber` | change/json.go:282-311 | a number's text, or a refusal |
| `JsonReader.Reader.ReadObject` | change/json.go:123-169 | an object's keys in order and its fields, refused where a key comes twice |
| `JsonReader.Reader.ReadArray` | change/json.go:171-200 | an array's items in order |
| `JsonReader.Reader.ReadOne` | change/json.go:92-121 | one value, no deeper than the bound |
| `JsonReader.ReadRecord` | change/json.go:52-67 | the reader returns a value exactly when the record is valid UTF-8 and a text of that value, with only white space around it |
| `JsonMeaning.StringMeans` | change/json.go:205-267 | a record that is one string, its characters as they are, by short escapes or by hex escapes of either case, is read as the string whose code points have exactly the UTF-16 units spelled |
| `JsonMeaning.PairIsItsUnits` | change/json.go:245-262 | two halves are read as the one code point whose units they are |
| `JsonMeaning.ValidExactly` | change/json.go:52-56 | a text is valid UTF-8 exactly when it is some code points encoded, and decoding gives those back |
| `JsonInverse.ValueReads` | change/json.go:92-121 | each text of a value, under any white space and escapes, reads as the value it says, and the reader stops where it ends |
| `JsonInverse.ValueWritten` | change/json.go:92-121 | and nothing else is read: what reads as a value is a text of it |
| `JsonInverse.ReadsExactly` | change/json.go:52-67 | the two together, for a whole record |
| `JsonValues.PrintedIsSound` | change/json.go:11-20 | a value read from valid UTF-8 names no key twice in any object at any depth, and its strings are valid UTF-8 |
| `JsonValues.ReadableExactly` | change/json.go:11-24 | the values a record can hold are exactly those with no key twice at any depth, valid strings and at most eight levels |
| `LandingStore.EveryLandingIsRecorded` | integrator/refs.go:560-637 | in every run beside other writers, every head ever landed has a landing record naming a commit on its branch |
| `LandingStore.BranchesOnlyGrow` | integrator/refs.go:669-718 | in every run a branch's old tip stays on its chain |
| `LandingStore.LandingRefIsOne` | integrator/refs.go:725-748 | a landing record's ref names one branch and one head |
| `Landing.PlanLands` | integrator/refs.go:669-718 | a plan whose old values all match is a landing: the target goes from the judged tip to a commit whose one parent is that tip, the landing record is created, and the request goes only if it still names the landed head |
| `Landing.Integrator.PrepareLanding` | integrator/refs.go:669-718 | plans every ref a landing moves, each compared with the value read, and moves none |
| `Landing.Integrator.EvidenceUpdates` | integrator/transfer.go:204-241 | each evidence ref keeps every note the landing does not overwrite and gains the landing's own |
| `Landing.Integrator.Apply` | integrator/refs.go:753-766 | moves all the refs of a transaction or none: a failed one leaves only what others did |
| `Landing.Integrator.Land` | integrator/refs.go:560-637 | lands exactly once, within three tries, after the records read again did not refuse, and takes the request with it exactly when that still named the landed head; or leaves every ref as others left it, for a refusal that was read, a moved target, three lost tries or a failed call |
| `Landing.Integrator.FinalRefusal` | integrator/records.go:341-352 | whether the records refuse, all of them read again, the request's own last |
| `Landing.Integrator.Refuse` | integrator/refs.go:215-234 | what the records the pass read refuse, the request's own read again, and else a merge, and else nothing |
| `Landing.Integrator.Act` | integrator/refs.go:292-326 | a verdict to land lands that judged head once; an outcome that is not the verdict is a refusal that was read; and any outcome but a landing moves nothing of its own |
| `Landing.Integrator.WriteAnswer` | integrator/refs.go:148-209 | an outcome record and its inputs move together or not at all |
| `Landing.Integrator.ReadInputs` | integrator/inputs.go:110-141 | the digest of the inputs record as it stands, told by the outcome record a moment before, "" when either is missing, unread or written with another |
| `Landing.Integrator.Handle` | integrator/refs.go:148-209 | the last answer stands exactly when the records read in this run answer the judgement this pass would make, on the head pushed and on the tip, the evidence refs and the inputs read in the run; otherwise one landing is made, that nothing refused, or one answer is written, a refusal that was read or the verdict, or the same one was reached again, or a call failed or the target was missing; and nothing lands under unread inputs |
| `Landing.EvidenceReopens` | integrator/refs.go:829-838 | an evidence ref that moved since an answer was written, where the fingerprint tells the two apart, leaves the answer standing no more |
| `LandingAnswer.AnsweredExactly` | integrator/refs.go:269-287 | a record answers exactly when it is this memo and an outcome that stands: no refusal, a failure for its time only, another while its inputs are read |
| `LandingAnswer.MemoIsOne` | integrator/refs.go:269-287 | a record opens with one memo and no other |
| `LandingAnswer.AnswerStands` | integrator/refs.go:269-287 | an answer stands exactly when none of head, tip, evidence and inputs moved, it is no refusal, and a failure is fresh |
| `Landing.WrittenAnswerStands` | integrator/refs.go:269-287 | the next pass reads the answer written and stands on it exactly then |
| `NoteTree.WriteTree` | integrator/transfer.go:386-420 | the recursive build makes the tree of the notes' paths |
| `NoteTotals.NotesTotal` | integrator/transfer.go:250-313 | a tree's notes come to what its paths' notes come to, each once for each path |
| `HookReadable.HookReadable` | integrator/transfer.go:250-313 | accepts a note set, from its flat paths alone, exactly when any tree built of it meets all six bounds, where no path opens with a slash and none is a directory of another; and what it counts for every other set |
| `HookReadable.CountsTheTree` | integrator/transfer.go:250-313 | with no path opening with a slash and none a directory of another, that count accepts exactly when the tree built meets all six bounds |
| `HookReadable.TablesAreTrees` | integrator/transfer.go:268-289 | there is one table for each tree exactly when no path opens with a slash |
| `HookReadable.RefusesAFittingTree` | integrator/transfer.go:268-289 | sets with such paths whose trees meet every bound and are refused |
| `HookReadable.LongNamesExist` | integrator/transfer.go:268-289 | there are such sets |
| `HookGuards.RefusesOnlyUnfit` | integrator/transfer.go:250-313 | with no path opening with a slash, no tree that meets the bounds is refused |
| `HookGuards.EntriesAreCounted` | integrator/transfer.go:269-292 | the names counted come to the tree's entries exactly when no path is a directory of another, and else to fewer |
| `HookGuards.AcceptsAnUnfitTree` | integrator/transfer.go:269-301 | sets with such paths that are accepted though a tree of them is too big |
| `WakeLoop.Loop.Arm` | integrator/wake.go:232-244 | watches, or sets the next try; a watch back after a failure owes a pass; no mark is lost |
| `WakeLoop.Loop.Fail` | integrator/wake.go:248-256 | drops the watch and sets the next try |
| `WakeLoop.Loop.Claim` | integrator/wake.go:161-172 | a claim through a watch leaves no due; one that cannot be made says so |
| `WakeLoop.Loop.RunPass` | integrator/wake.go:123-155 | after a pass every mark is on disk or was made before the pass began reading |
| `WakeLoop.Loop.Wait` | integrator/wake.go:183-226 | every block is entered at a reading of the clock before the timer's time and with no reason for a pass, lasts until the first time it may act, and ends by a notification or a broken watch that came up in it, or with neither by the timer; with a live watch, due on disk and no notification it has a timer for when due may be acted on; a held due is no reason for a pass |
| `WakeLoop.Loop.Run` | integrator/wake.go:123-155 | over whole runs: no mark is lost, no block is stuck or outlasts the timer, set an interval after the pass before, and each pass follows the one before it for a reason: at once when that landed, by the timer an interval later, by a due only when the last claim took its own, after a failure no sooner than the hold, and for a restored watch no more often than one was lost |
| `WakeLoop.StaysNotStuck` | integrator/wake.go:183-226 | a blocked loop stays wakeable whatever writers and the watch do meanwhile |
| `Admission.Fits` | attest/admit.go:62-75 | the 64-bit loop is the exact unbounded sum test, in any order, with nothing wrapped around |
| `Admission.NoOvertaking` | attest/admit.go:62-75 | when a later reservation fits, so does every one before it |
| `Admission.HeadFits` | attest/admit.go:62-75 | the head of the line fits |
| `Admission.RunningFit` | attest/admit.go:62-75 | running evaluations' estimates fit the budget, or one runs alone |
| `Admission.Directory.Scan` | attest/admit.go:197-235 | reads every other counting reservation and removes exactly the other files, those that do not count |
| `Admission.Directory.Reserve` | attest/admit.go:114-157 | a reservation is made last in line, one after the last place or first, and counts exactly below the ceiling, unless a system call fails or an evaluation still holds the run's name |
| `Admission.Directory.Look` | attest/admit.go:161-168 | a waiting run starts exactly when the rule over the line says so, at the ceiling too, where its reservation does not count |
| `Admission.Directory.Release` | attest/admit.go:83-108 | a run that ends leaves the line and takes no other's place |
| `Admission.Directory.Kept` | attest/admit.go:62-157 | whenever the lock is free, the running evaluations whose reservations count, which are all below the ceiling, fit the budget or one runs alone, and none running passed over a reservation that did not fit |
| `Admission.CeilingOverrunsBudget` | attest/admit.go:114-157 | after the one place below the ceiling, two runs under free names that reserve and look with no call failing both start, unseen, and overrun the budget |
| `History.ReadHistory` | rebase/history.go:30-54 | reads main's history exactly when every line names a commit and each parent is listed; it then holds exactly what main reaches |
| `History.MainHistory.Walk` | rebase/history.go:65-84 | the bitset walk marks exactly the places a commit reaches |
| `History.MainHistory.ReachesIt` | rebase/history.go:65-84 | from kept sets, for any calls in any order, exactly the reflexive transitive closure of parents |
| `Ancestry.MeetsMain` | rebase/snapshot.go:700-707 | a head beside main reaches a commit of main's exactly through a commit where its own history meets main's |
| `Ancestry.ReachedIn` | rebase/snapshot.go:673-698 | the commits listed and their parents not among them, each once |
| `Ancestry.Snapshot.Reach` | rebase/snapshot.go:668-698 | what a commit reaches beside main, read once |
| `Ancestry.Snapshot.ReachesMain` | rebase/snapshot.go:258-276 | whether main reaches a commit, however it was answered |
| `Ancestry.Snapshot.MainAncestor` | rebase/snapshot.go:733-756 | main's history answers exactly when it could be listed and the graph has the commit, and it answers with reachability |
| `Ancestry.Snapshot.StrictAncestor` | rebase/snapshot.go:708-728 | exactly strict reachability in the whole commit graph, for every pair and whatever was kept |
| `Mainline.FirstParents.OnMain` | rebase/snapshot.go:228-249 | exactly main's first-parent commits with no merge between them and the tip |
| `Mainline.FirstParents.SingleParent` | rebase/snapshot.go:451-457 | whether a commit has exactly one parent: as kept for main's line, and as git says for any other |
| `Mainline.LandedAs` | rebase/snapshot.go:352-366 | the newest landed version, unless the active version is another made on a main that holds it |
| `Nest.NestNodes` | rebase/snapshot.go:866-928 | each parent and base is a covering pair, the right one among equals, and each inside list is what contains a node, in order |
| `Nest.LatestFirst` | rebase/snapshot.go:866-928 | an ordered list has the latest commit first, and at one time the lower name |
| `Nest.BasesFall` | rebase/snapshot.go:866-928 | bases make a forest |
| `Nest.AncestryIsStrictOrder` | rebase/snapshot.go:708-728 | ancestry in an acyclic graph is the strict order nesting needs |
| `Family.Connected` | rebase/family.go:238-253 | exactly the nodes with the first's root, one tree |
| `Family.Chain` | rebase/family.go:187-195 | exactly the first and what it sits on, one tree |
| `Family.Link` | rebase/family.go:196-213 | below and above pointers agree with the bases, each once |
| `Family.Order` | rebase/family.go:257-271 | every layer exactly once, the one bottom first: breadth first, so level by level, on each level in the order of the layers below, and those on one layer by name |
| `Family.Capture` | rebase/family.go:151-218 | the family of the first layer: one tree with one bottom, every kept layer listed once, breadth first and by name |
| `Glob.Compile` | derive/glob.go:42-75 | the tokens of a pattern's segments |
| `Glob.Match` | derive/glob.go:80-125 | with its memo table, membership in the concatenation of the tokens' languages |
| `GlobSegments.MatchIsReading` | derive/glob.go:10-22 | for a path with no empty component, that is the segment reading, a `**` that is not last taking any whole segments |
| `NoteShapes.NameExactly` | note/note.go:83-97 | a signer's name fits exactly when it is valid UTF-8, not empty, and none of its code points is a space, a control character or a plus |
| `NoteShapes.BytesExactly` | note/note.go:101-111 | a note's bytes fit exactly when they are valid UTF-8 with no ASCII control character but the newline |
| `Note.SplitNote` | note/note.go:203-232 | splits a note exactly when it is a text, a blank line and signature lines of distinct signers |
| `Note.SplitIsOne` | note/note.go:203-232 | in one way, even when the text holds blank lines |
| `Note.Sign` | note/note.go:274-286 | a signed note splits into exactly the signed text and that signature |
| `Note.AddSignature` | note/note.go:291-307 | keeps the text and earlier lines in order and adds at most one, whenever the name fits and the note splits |
| `Note.SigningTwice` | note/note.go:291-307 | co-signing with one key a second time gives the note the first time gave |
| `Note.Open` | note/note.go:321-347 | opens exactly the notes that split with a known valid signature and no invalid known one, as their text |
| `Note.StaysOpen` | note/note.go:321-347 | a note that opens still opens, as the same text, once a signer known rightly or not at all has co-signed it |

## Left out

- git, nix, cue, attest, ssh, deadlines, worktrees and scratch directories: only the values they return are modelled. A deadline may pass at any moment.
- Error wording, timing lines, progress records and bus events: output only. An error is the rule it is under, or that there is one.
- SHA-256, Ed25519, base64 and their encodings: abstract functions. Hashes of objects are injective where a proof needs it, and only the hash of empty content is a known constant.
- Unicode names and regular expressions: written out as predicates on bytes, or left as arbitrary predicates in `Note.Scheme`.
- `verdict.Decide`: an arbitrary function of what is judged, which lands nothing that conflicts; materializing a judged merge (integrator/refs.go:352-532) is part of the request's judged input.
- KnotAdmission.Check: what a knot's or comment's content says is a parameter there; `KnotGraphText` puts the reader of knot files in its place. Comment files (knot/canon.go:350-435), whose form is a smaller copy of a knot's, are not modelled.
- KnotCanon.ParseFile: a malformed byte sequence inside a quoted value, which Go's decoder would replace, cannot come there, since the file is valid UTF-8 before any line is read.
- TreeDelta.Between: objects are already split into kind and content, and IDs are not checked for their length.
- Landing.Integrator.EvidenceUpdates: the notes a ref holds are given as a map of paths to blobs, which readNotes (integrator/transfer.go:355-368) reads; whether the push hook would refuse a tree is a free choice there and is decided in `HookReadable`.
- Landing.Integrator.Handle: what records say of a request (integrator/records.go:285-324) is an arbitrary function of two readings of them; times are whole seconds, and the newline that ends a record's blob is not kept. Requests are taken one at a time, and which come first (integrator/refs.go:110-142) is not modelled.
- WakeLoop.Loop.Run: whether a call fails is a free choice there, and counted; the endless loop runs for as many passes and each wait for as many wakes as it is given, both arbitrary; a timer never wakes it early and may wake it late.
- Admission.Directory.Look: polling and its pauses are left to the caller, which may look at any time.
- Ancestry.Snapshot: the listing of what a commit of the graph reaches is taken not to fail. Main's may, and is then none; a commit the graph does not hold has the empty one.
- Mainline.LandedAs: whether each version landed is given; matching and verifying transfer statements (rebase/snapshot.go:377-560) is a chain of lookups over foreign calls.
- Family.Capture: which changes and branches are candidates, and the checks and commits of a family (rebase/family.go:286-394), are not modelled.
- HookReadable.HookReadable: which paths the integrator's own notes and those a ref already holds have is not modelled, so nothing here says that they keep the two guards.
- NoteTree.WriteTree: mktree accepts any name here, odd ones included.
