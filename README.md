# Ansible playbook generator: reply parser and step editor

The application sends a user's requirements to a text-generation model and
gets back a reply. The reply holds a numbered list of installation steps
after `STEPS:` and one or more playbook files after `CODE:`, each introduced
by `filename:`. The user can then reorder, delete, edit and add steps. This
project models two parts of the application:

- **The generation service** (`src/services/gemini.ts`). It covers the option
  switches that pick the prompt's directives and example file names. It also
  covers the parser that turns the reply text into `Step` and `CodeBlock`
  records. The parser is modelled as a function of the reply text (module
  `Gemini`).
  - Each regular expression is written out over sequences of characters.
  - The per-segment `for` loop is a method, `CollectBlocks`, with its loop
    invariant.
  - The steps half of `ParseResponse` is the specification function
    `ExtractSteps` itself, a pipeline of `trim`, `split`, `filter` and `map`
    as in the source. The code-block half is the loop, and `CollectBlocks`
    is proved equal to the specification function `CodeBlocksOf`.
- **The step editor** (`src/components/StepsList.tsx`). Its five `useState`
  fields and the list it shows are a class, `StepsListState`, whose methods
  are the event handlers. Each handler's update of the list is specified by
  a function of the old list (`Reordered`, `Deleted`, `WithDescription`,
  `NewStep`), and lemmas state what those functions promise.

Supporting modules:

- `Types` holds the records of `src/types.ts`.
- `Seqs` holds generic `filter`, `map` and `splice`, with their laws.
- `JsString` spells out the JavaScript string primitives the parser relies on:
  - `trim` and the `\s` class, which share one white-space set;
  - `indexOf`, `split`, `join` and `String(n)` for naturals.

Two behaviours of the parser are easy to misread:

- **File names are never empty.** A segment is trimmed before its first line
  is taken, and blank segments are skipped. A non-blank trimmed segment
  starts with a non-white character, so every block's file name is
  non-empty (`Gemini.BlockFileName`).
- **Step descriptions can be empty.** A line such as `3.` passes the
  blank-line filter but loses all of its text to the number prefix, so it
  yields an empty description (`Gemini.BareNumberGivesEmptyDescription`).

The two patterns `/STEPS:(.*?)CODE:/s` and `/CODE:(.*)/s` are matched
independently. The code section therefore starts at the first `CODE:` in the
text, even when that `CODE:` comes before `STEPS:`
(`Gemini.CodeSectionCanPrecedeSteps`).

## Model

| member | source | states |
|---|---|---|
| Gemini.SelectDirectives | src/services/gemini.ts:18-51 | the advanced directive is chosen exactly for the advanced level and the basic one exactly for the basic level; the multi-file directive exactly when `multiFile`, the single-file one otherwise; the example names `site.yml` and `vars/main.yml` appear exactly for multi-file, `playbook.yml` exactly for single-file |
| Gemini.StepsMatch | src/services/gemini.ts:58 | the span of the steps group lies within the text; what it is, is stated by `StepsMatchIsLeftmostLazy` |
| Gemini.CodeMatch | src/services/gemini.ts:59 | the start of the code group lies within the text; what it is, is stated by `CodeMatchIsFirst` |
| Gemini.StepLines | src/services/gemini.ts:61-63 | without a steps group there are no lines; otherwise the lines joined with `'\n'` give back the trimmed group, and no line contains a line break |
| Gemini.StripNumber | src/services/gemini.ts:67 | the `replace` of a step line; its two cases are stated by `StripNumberNumbered` and `StripNumberUnnumbered` |
| Gemini.ExtractSteps | src/services/gemini.ts:61-69 | the steps pipeline; its contents are stated by `StepAt`, `StepCountIsNonBlankLines`, `StepIdsAreSequential`, `StepIdsAreDistinct`, `StepsFromNonBlankLines` and `NoStepsWithoutMarkers` |
| Gemini.StripOpeningFence | src/services/gemini.ts:82 | the first `replace` of a block body; its two cases are stated by `StripOpeningFenceRemovesLine` and `StripOpeningFenceNoFence` |
| Gemini.BlockOf | src/services/gemini.ts:79-90 | the block of one non-blank segment; stated by `BlockFileName`, `FencedBlockCode`, `SingleLineSegmentHasNoCode` and `BlockOfSplitLines` |
| Gemini.CodeSegments | src/services/gemini.ts:72-74 | without a code group there are no segments; otherwise the segments joined with `filename:` give back the trimmed group, and no segment contains `filename:` |
| Gemini.CodeBlocksOf | src/services/gemini.ts:71-92 | the blocks the loop collects; stated by `CodeBlocksOfSnoc`, `CodeBlocksOfSegments` and `CodeBlocksInSegmentOrder` |
| Gemini.StepsMatchIsLeftmostLazy | src/services/gemini.ts:58 | the lazy `STEPS:(.*?)CODE:` match exists iff some `STEPS:` is followed by a `CODE:`; its group starts right after the first `STEPS:` and ends at the first `CODE:` after it, with no `CODE:` inside |
| Gemini.CodeMatchIsFirst | src/services/gemini.ts:59 | the `CODE:(.*)` match exists iff the text contains `CODE:`, and its group starts right after the first `CODE:` |
| Gemini.CodeMatchNotAfterStepsEnd | src/services/gemini.ts:58-59 | whenever the steps group exists the code group exists too, and it starts no later than the `CODE:` that ends the steps group |
| Gemini.CodeSectionCanPrecedeSteps | src/services/gemini.ts:58-59 | on `CODE:aSTEPS:bCODE:c` the steps group is `b` (span 12..13) while the code group starts at index 5, before `STEPS:` |
| Gemini.StripNumberNumbered | src/services/gemini.ts:67 | a line with digits and a dot at index `k` loses everything up to the dot and the white space after it |
| Gemini.StripNumberUnnumbered | src/services/gemini.ts:67 | a line without a digits-dot prefix is left unchanged |
| Gemini.Description | src/services/gemini.ts:67 | a description is always trimmed |
| Gemini.DescriptionOfNumbered | src/services/gemini.ts:67 | a numbered line's description is the trimmed text after the dot |
| Gemini.DescriptionOfIndented | src/services/gemini.ts:67 | a line starting with white space keeps its number: its description is just the line trimmed |
| Gemini.BareNumberGivesEmptyDescription | src/services/gemini.ts:64-67 | the non-blank line `3.` yields the empty description |
| Gemini.StepOfLine | src/services/gemini.ts:65-68 | the step built for line `index` has id `String(index + 1)` and is not completed |
| Gemini.StepAt | src/services/gemini.ts:61-69 | step `i` is built from the `i`-th non-blank line of the trimmed, split steps group: id `String(i + 1)`, that line's description, not completed |
| Gemini.NoStepsWithoutMarkers | src/services/gemini.ts:58-69 | without a `STEPS:` followed by a `CODE:` the step list is empty |
| Gemini.StepCountIsNonBlankLines | src/services/gemini.ts:61-65 | there are exactly as many steps as non-blank lines in the steps group |
| Gemini.StepIdsAreSequential | src/services/gemini.ts:65-68 | step `i` has id `String(i + 1)` and is not completed, whatever numbers the text carries |
| Gemini.StepIdsAreDistinct | src/services/gemini.ts:66 | no two parsed steps share an id |
| Gemini.StepsFromNonBlankLines | src/services/gemini.ts:61-67 | the lines the steps come from are non-blank, a subsequence of all lines in their order, and step `i`'s description is that of the `i`-th of them |
| Gemini.StripOpeningFenceRemovesLine | src/services/gemini.ts:82 | a leading fence line (three backticks, word characters, a line break) is removed in full |
| Gemini.StripOpeningFenceNoFence | src/services/gemini.ts:82 | text that does not start with a fence line is unchanged |
| Gemini.StripClosingFence | src/services/gemini.ts:83 | the result is the text, or the text without three final backticks, and it is the text iff the text does not end with three backticks |
| Gemini.CodeOf | src/services/gemini.ts:80-84 | the code is always trimmed |
| Gemini.BlockFileName | src/services/gemini.ts:79-90 | a non-blank segment's block has a present, non-empty, trimmed, single-line file name and language `yaml` |
| Gemini.SingleLineSegmentHasNoCode | src/services/gemini.ts:79-84 | a segment that is one line after trimming yields empty code |
| Gemini.FencedBlockCode | src/services/gemini.ts:79-84 | for a body that starts with a fence line ending at `k`, the code is the rest after that line, without a final fence, trimmed |
| Gemini.BlockOfSplitLines | src/services/gemini.ts:79-90 | the block built with `split('\n')`, `[fileName, ...codeLines]` and `join('\n')` is the block of the first line and the text after the first line break |
| Gemini.CodeBlocksOfSnoc | src/services/gemini.ts:76-91 | one more segment adds its block at the end if it is non-blank, and nothing otherwise |
| Gemini.PushBlock | src/services/gemini.ts:86-90 | pushing the block of a non-blank segment extends the blocks of the earlier segments to the blocks of all of them |
| Gemini.CodeBlocksOfSegments | src/services/gemini.ts:74-91 | there is exactly one block per non-blank `filename:` segment, and every block has a file name and language `yaml` |
| Gemini.CodeBlocksInSegmentOrder | src/services/gemini.ts:74-91 | block `k` is the block of the `k`-th non-blank segment, and those segments are a subsequence of all of them, in order |
| Gemini.BuildBlock | src/services/gemini.ts:79-90 | the loop body builds exactly the block of its segment |
| Gemini.CollectBlocks | src/services/gemini.ts:76-91 | the loop skips blank segments and pushes one block for each other, so the result is the blocks of all segments |
| Gemini.ParseResponse | src/services/gemini.ts:58-94 | the result's steps and blocks are those of the specification functions; without `CODE:` there are no blocks; the block count is the number of non-blank segments; every block is `yaml` with a file name |
| JsString.Trim | src/services/gemini.ts:62 | `trim` never lengthens a string, gives the empty string exactly for blank strings, and leaves no white space at either end; `TrimRemovesOnlyWhite` states that it removes only the surrounding white space |
| JsString.TrimRemovesOnlyWhite | src/services/gemini.ts:62 | `trim` returns the middle of the string, and what it cuts off before and after is white space |
| JsString.Find | src/services/gemini.ts:58-59 | `indexOf` gives -1 or an occurrence at or after the start; `FindIsFirst` makes it the first one |
| JsString.Split | src/services/gemini.ts:74 | `split` gives at least one piece; `SplitUnfold` states which: the first piece is the text before the first occurrence, and the others are the split of the text after it. `SplitJoin` and `SplitPiecesFree` alone pin the pieces down only for a separator none of whose proper prefixes is also a suffix, as holds for `'\n'` and `filename:` |
| JsString.SplitUnfold | src/services/gemini.ts:74 | at the first occurrence `i` of the separator, the pieces are `s[..i]` followed by the pieces of the text after that occurrence, so the scan runs left to right without overlap |
| JsString.Join | src/services/gemini.ts:80-81 | `join`; `SplitJoin` states that it undoes `split` |
| JsString.TrimIdempotent | src/services/gemini.ts:67 | trimming twice is trimming once |
| JsString.TrimAfterTrimStart | src/services/gemini.ts:67 | removing leading white space before trimming changes nothing |
| JsString.ContainsOfTrim | src/services/gemini.ts:87 | trimming never brings a pattern into a string that did not contain it |
| JsString.FindIsFirst | src/services/gemini.ts:58-59 | `indexOf` returns the first occurrence at or after its start, and -1 only when there is none |
| JsString.SplitJoin | src/services/gemini.ts:74 | joining the pieces of a split with the separator gives back the string |
| JsString.SplitPiecesFree | src/services/gemini.ts:74 | no piece of a split contains the separator |
| JsString.FirstLine | src/services/gemini.ts:79 | the first line is a prefix without a line break, followed in the text by a line break when it is not all of it |
| JsString.LinesOfSplit | src/services/gemini.ts:79-81 | the first piece of `split('\n')` is the first line, and the other pieces joined with `'\n'` are the text after the first line break |
| JsString.LeadingRun | src/services/gemini.ts:67 | the greedy `\d+` run here and the `\w*` run at line 82: every character of the run is in the class, and the run stops at the end of the text or at a character outside it |
| JsString.NatToString | src/services/gemini.ts:66 | `String(n)` is non-empty, all decimal digits, with no leading zero |
| JsString.NatToStringValue | src/services/gemini.ts:66 | reading back `String(n)` as decimal digits gives `n` |
| JsString.NatToStringInjective | src/services/gemini.ts:66 | distinct numbers have distinct decimal strings |
| Seqs.Filter | src/services/gemini.ts:64 | `filter` keeps only elements that satisfy the predicate, and keeps every element of the input that does |
| Seqs.FilterCount | src/services/gemini.ts:64 | the number kept is the number of elements that satisfy the predicate |
| Seqs.FilterIsSubsequence | src/services/gemini.ts:64 | the kept elements are a subsequence of the input, in its order |
| Seqs.FilterMultiset | src/components/StepsList.tsx:36 | every element that satisfies the predicate keeps its multiplicity, and every other element is gone |
| Seqs.MapIndexedAt | src/services/gemini.ts:65 | element `k` of `map((x, index) => ...)` is the function applied to `k` and the `k`-th element |
| Seqs.RemoveAt | src/components/StepsList.tsx:29 | `splice(i, 1)` leaves one element fewer: the elements before `i` stay where they were and the ones after it move down by one |
| Seqs.InsertAt | src/components/StepsList.tsx:30 | `splice(i, 0, x)` leaves one element more, with `x` at index `i`, the elements before `i` in place and the ones from `i` on moved up by one |
| Seqs.MovedSpec | src/components/StepsList.tsx:28-30 | taking an element out and splicing it in at `to` keeps the length and the multiset, puts the element at `to`, and keeps every other element in its relative order |
| StepsList.Truthy | src/components/StepsList.tsx:23 | a string-or-null value in a condition (here and at line 45) is false for `null` and for `''`, and true for every non-empty string |
| StepsList.FindIndex | src/components/StepsList.tsx:25-26 | `findIndex` is -1 iff no step carries the id, and otherwise the first index of a step carrying it |
| StepsList.SpliceStart | src/components/StepsList.tsx:29-30 | `splice` starts at an in-range index as given, and at the last element for -1 |
| StepsList.Reordered | src/components/StepsList.tsx:25-30 | the reordered list has the same length; its contents are stated by `ReorderedMovesDragged` and `ReorderedUnknownDragged` |
| StepsList.Deleted | src/components/StepsList.tsx:36 | the filtered list; stated by `DeletedRemovesExactlyId`, `DeletedAbsentId` and `DeletedIdempotent` |
| StepsList.WithDescription | src/components/StepsList.tsx:47-51 | the mapped list has the same length; its contents are stated by `WithDescriptionChangesOnlyEdited` and `WithDescriptionAbsentId` |
| StepsList.ReorderedMovesDragged | src/components/StepsList.tsx:25-30 | when both ids are present, the new list has the same length and steps, the dragged step sits at the target's former index, and the other steps keep their relative order |
| StepsList.ReorderedUnknownDragged | src/components/StepsList.tsx:25-30 | when the dragged id is in no step, `findIndex` gives -1 and `splice(-1, 1)` moves the last step to the target's index |
| StepsList.DeletedRemovesExactlyId | src/components/StepsList.tsx:35-37 | delete leaves no step with the id, keeps every other step with its multiplicity, and keeps the original order |
| StepsList.DeletedAbsentId | src/components/StepsList.tsx:35-37 | deleting an id that no step carries leaves the list unchanged |
| StepsList.DeletedIdempotent | src/components/StepsList.tsx:35-37 | deleting twice is deleting once |
| StepsList.WithDescriptionChangesOnlyEdited | src/components/StepsList.tsx:47-51 | saving keeps the length, every id and every `completed` flag, gives the edited steps the new description, and leaves all other steps unchanged |
| StepsList.WithDescriptionAbsentId | src/components/StepsList.tsx:47-51 | saving for an id that no step carries leaves the list unchanged |
| StepsList.NewStep | src/components/StepsList.tsx:60-64 | a new step carries the untrimmed input as its description and is not completed |
| StepsList.NewStepIdNotParsed | src/components/StepsList.tsx:61 | an added step's `step-` id never equals an id the parser gives out |
| StepsList.NewStepIdsDistinct | src/components/StepsList.tsx:61 | different timestamps give different ids |
| StepsList.StepsListState.constructor | src/components/StepsList.tsx:11-15 | at first nothing is dragged or edited, both inputs are empty and adding mode is off |
| StepsList.StepsListState.DragStart | src/components/StepsList.tsx:17-19 | the dragged id is recorded, and nothing else changes |
| StepsList.StepsListState.DragOver | src/components/StepsList.tsx:21-33 | with no dragged id (null or empty), or when dragging over the dragged step itself, the list is unchanged; otherwise the list becomes `Reordered`; no other field changes |
| StepsList.StepsListState.Delete | src/components/StepsList.tsx:35-37 | the list becomes the filtered list, and nothing else changes |
| StepsList.StepsListState.StartEditing | src/components/StepsList.tsx:39-42 | the editing id becomes the step's id and the buffer its description; the list is unchanged |
| StepsList.StepsListState.SetEditedContent | src/components/StepsList.tsx:91 | the edit buffer takes the typed value |
| StepsList.StepsListState.SaveEdit | src/components/StepsList.tsx:44-55 | with no editing id or a blank buffer, nothing changes; otherwise only the edited steps get the trimmed buffer, and the editing id and buffer are cleared |
| StepsList.StepsListState.SetNewStep | src/components/StepsList.tsx:124 | the new-step input takes the typed value |
| StepsList.StepsListState.SetAdding | src/components/StepsList.tsx:132 | adding mode is switched as the button asks (Add Step opens it, Cancel closes it) |
| StepsList.StepsListState.AddStep | src/components/StepsList.tsx:57-69 | with a blank input, nothing changes; otherwise exactly one new step, uncompleted and with the untrimmed input, is appended at the end, the input is cleared and adding mode ends |

## Left out

- The network call to the model, the API key, the `try`/`catch` that logs and re-raises, and the `async` plumbing (`src/services/gemini.ts:1-16`, `53-56`, `95-98`). The parser takes the reply text as its input.
- The prose of the prompt (`src/services/gemini.ts:26-51`). Only the parts that depend on the options are modelled: the two directives and the example file names.
- JSX rendering, CSS classes, icons, `e.preventDefault()` and keyboard handling in `src/components/StepsList.tsx`. The handlers they call are modelled.
- `onUpdateSteps`. The parent owns the list and passes it back as the `steps` prop; the model assigns the new list to the `steps` field. React's deferred state updates and re-rendering are not modelled.
- `Date.now()`: `StepsListState.AddStep` takes the timestamp as its parameter `now`, a natural number.
- StepsList.StepsListState.DragOver: requires the target id to be in the list, since the handler is only bound to rendered steps. The JavaScript outcome for an absent target (`findIndex` gives -1, and the step is spliced in before the last one) is not modelled. Neither is the `undefined` that `splice` would insert into an empty list.
- StepsList.Reordered: requires the target id to be in the list, for the same reason.
- `src/App.tsx` and the components `RequirementInput`, `ValidationSteps`, `CodeOutput` and `Header` are not part of this model.
