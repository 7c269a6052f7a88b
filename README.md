# dir-remover, modelled in Dafny

dir-remover is an interactive command-line tool. It lists the top level of
a directory and asks the user which entries to delete: one question per
entry, or with `--all` one question for the whole listing. It then asks
once more, for the whole selection, and on yes removes each selected entry
recursively; it reports how many removals succeeded and which failed. A
file given as the target is shown and removed after one question.

This project models the decision logic of `main.go` and proves its
properties. Standard input, the directory read, each entry's metadata query
and each removal are inputs or oracles:

- `wrappers.dfy` (`Wrappers`): the optional value returned by reads and
  removals.
- `seqs.dfy` (`Seqs`): order-preserving selection of the positions where a
  flag holds. It is shared by the lister, the selection and the deletion
  tally.
- `prompt.dfy` (`Prompt`): the yes/no prompt.
  - Standard input is a `Stdin` object holding the unread text.
  - A read takes text up to and including the next line feed. With no line
    feed left, the read fails: the stream ended.
  - A line is classified after trimming white space and lower-casing.
  - `Confirmation` is the prompt's meaning as a function of the remaining
    input. `ConfirmWithReader` is the read-classify-reprompt loop, proved
    against it.
- `size_format.dfy` (`SizeFormat`): the unit selection of the size
  formatter, on 64-bit sizes, and the `"<n> B"` rendering of small sizes.
- `listing.dfy` (`Listing`): the entry record and the lister, which builds
  entries from the raw directory entries whose metadata query succeeded.
- `selection.dfy` (`Selection`):
  - interactive selection marks the caller's array in place and returns the
    entries answered yes;
  - bulk selection asks once and marks everything, or nothing.
- `deletion.dfy` (`Deletion`): the deletion executor.
  - The file system is a `FileSystem` object. It holds the set of existing
    paths, a constant map from failing paths to their error, and the log of
    removal attempts.
  - The executor tallies successes and failures and never stops at a
    failure.
- `workflow.dfy` (`Workflow`): the run on a directory target and the run on
  a single-file target, each proved against a function of the input and the
  oracles.

## Model

| member | source | states |
|---|---|---|
| Prompt.TrimLeftSpec | main.go:339 | trimming the front drops exactly the leading run of white space: the dropped part is all white space and the rest starts with a non-space |
| Prompt.TrimRightSpec | main.go:339 | trimming the back drops exactly the trailing run of white space |
| Prompt.Lower | main.go:339 | lower-casing keeps the length of the answer |
| Prompt.LowerSpec | main.go:339 | lower-casing works character by character, mapping A-Z to a-z and keeping everything else |
| Prompt.TrimPadded | main.go:339 | trimming a word padded on both sides by any white space gives back the word |
| Prompt.ClassifyPadded | main.go:339-347 | a line's answer depends only on the word it holds, lower-cased: white space around it, the line terminator included, changes nothing |
| Prompt.ClassifyYesExample | main.go:339-343 | `" YES\r\n"` is an affirmative answer |
| Prompt.ReadLine | main.go:333 | a successful read consumes input, so the prompt loop terminates |
| Prompt.ReadLineSpec | main.go:333-337 | a read returns the input up to and including its first line feed and leaves the rest; it fails exactly when no line feed is left |
| Prompt.ReadLineOf | main.go:333 | a complete line followed by anything reads as that line, leaving the rest |
| Prompt.Stdin.constructor | main.go:326 | a fresh input stream holds the given text unread |
| Prompt.Stdin.ReadString | main.go:333-337 | a read returns the next line and advances past it; on failure it returns nothing and the stream is spent |
| Prompt.ConfirmationConsumesPrefix | main.go:330-349 | the prompt only consumes input from the front: what it leaves is a suffix of what it found |
| Prompt.ConfirmationIsFirstVerdict | main.go:331-348 | the prompt's answer is that of the first line holding y/yes/n/no/empty; with none, or after a read failure, it is no |
| Prompt.FirstVerdictYesIff | main.go:339-347 | the answer is yes exactly when some line says y or yes and every line before it is invalid |
| Prompt.ConfirmationNoValidLine | main.go:333-337 | without any valid line the prompt answers no, never yes, and consumes all input |
| Prompt.ConfirmationSkipsInvalid | main.go:347 | an invalid line only causes a re-prompt: the answer is that of the input after it |
| Prompt.ConfirmationStopsAtValid | main.go:341-346 | a valid line ends the prompt with its own answer and leaves the input after it unread |
| Prompt.ConfirmWithReader | main.go:330-349 | the prompt loop returns exactly `Confirmation` of the input and leaves exactly its rest unread |
| Prompt.Confirm | main.go:325-328 | the prompt on standard input answers as `Confirmation` of it |
| SizeFormat.Pow1024 | main.go:194-196 | 1024^k is at least 1 |
| SizeFormat.Log1024Bounds | main.go:195-198 | the number of divisions is the largest k with 1024^k <= size, so 1024^k <= size < 1024^(k+1) |
| SizeFormat.Log1024Unique | main.go:195-198 | that exponent is the only one that brackets the size between consecutive powers of 1024 |
| SizeFormat.NatDigits | main.go:192 | the decimal rendering is non-empty and all digits, and it has no leading zero: it starts with 0 only when it is the single digit 0 |
| SizeFormat.NatDigitsRoundTrip | main.go:192 | reading the decimal digits back gives the number |
| SizeFormat.DecimalRoundTrip | main.go:192 | the rendered byte count, with its sign, is well formed and reads back as the size |
| SizeFormat.FormatSize | main.go:189-200 | the result is `"<n> B"` exactly when size < 1024; otherwise div = 1024^(exp+1) <= size < 1024*div, exp + 1 is the number of divisions by 1024, exp <= 5 so the unit index is in range, and the suffix is the exp-th letter of KMGTPE followed by iB |
| Listing.StripSeparators | main.go:250 | dropping trailing separators leaves a prefix of the path that is empty or does not end in a separator |
| Listing.LastComponentSpec | main.go:250 | the last component is the longest suffix of the path without a separator |
| Listing.BaseName | main.go:250 | the base name of a path is never empty |
| Listing.BaseNameSpec | main.go:250 | for a path with anything besides separators, the base name is its last non-empty component: trailing separators are ignored, and the name has no separator and follows a separator or the start of the path |
| Listing.BaseNameExamples | main.go:250 | the empty path has base name `.`, the root `/`, and `a/b/` has `b` |
| Listing.BaseNameOfJoin | main.go:175 | the base name of a joined path is the entry name, as shown in prompts and in the failure list |
| Listing.ListedSpec | main.go:165-187 | the listing is, in directory order, exactly the entries whose metadata query succeeded, entry j built from the j-th of them |
| Listing.ListedFresh | main.go:175-183 | every listed entry starts unmarked and its path is the directory path joined with a raw entry's name |
| Listing.SkippedSpec | main.go:169-173 | the warnings name, in directory order, exactly the raw entries whose metadata query failed, warning j naming the j-th of them |
| Listing.ListedPlusSkipped | main.go:168-184 | the listing and the warnings together account for every raw entry: their lengths add up to the number of raw entries |
| Listing.GetFileEntries | main.go:165-187 | the lister loop returns exactly the specified listing and warns about exactly the skipped names |
| Seqs.Count | main.go:291-309 | a count of flags is at most their number; it is 0 exactly when none holds and full exactly when all hold |
| Seqs.IndicesWhereSpec | main.go:247-265 | the selected positions are all the positions where the flag holds, and only those, in increasing order; their number is the count of true flags |
| Selection.Answers | main.go:247-265 | a run of n prompts produces exactly n answers |
| Selection.MarkedWhere | main.go:261 | marking keeps the listing's length |
| Selection.MarkedWhereSpec | main.go:261 | after selection, entry i of the caller's listing is marked exactly when it was answered yes (or was marked already); nothing else changes |
| Selection.SelectedWhereSpec | main.go:262 | the selection is the subsequence of entries answered yes, marked, in listing order; its length is the number of yes answers |
| Selection.BulkAllOrNothing | main.go:117-125 | bulk mode is interactive mode with one answer for all entries: yes marks every entry and selects the whole listing, no marks nothing and selects nothing |
| Selection.SelectFilesInteractively | main.go:238-273 | one prompt per entry, in order, on the same input; the caller's array is marked and the selection returned as specified by those answers |
| Selection.SelectAll | main.go:117-125 | one prompt; the array is marked all or nothing by its answer, and the selection is the whole marked array or empty |
| Selection.MarkAll | main.go:121-123 | the bulk loop marks every entry and changes nothing else |
| Deletion.FileSystem.constructor | main.go:299 | a file system holds the given paths and failing paths, with no attempts yet |
| Deletion.FileSystem.RemoveAll | main.go:299 | a recursive removal is logged, fails with its path's error, or removes the path and all below it; a missing path is not an error |
| Deletion.FileSystem.Remove | main.go:154 | a single removal is logged, fails with its path's error or because the path is missing, or removes just that path |
| Deletion.TallySpec | main.go:291-309 | successful + failed equals the number of entries; the failure list has failed items; it lists the failing entries in selection order, each with its error |
| Deletion.AllSucceed | main.go:306-308 | with no failing path, every entry counts as a success and the failure list is empty |
| Deletion.AfterRemovalsSpec | main.go:298-309 | a path survives exactly when it existed and no successful removal was of it or of a directory above it |
| Deletion.AfterRemovalsShrinks | main.go:298-309 | removals only ever take paths away |
| Deletion.DeleteSelectedEntries | main.go:275-323 | an empty selection reads nothing and removes nothing; otherwise one prompt; on no nothing is removed; on yes every entry gets exactly one removal attempt, in order, whatever the earlier ones gave, and the report is the specified tally |
| Workflow.ConsentBeforeRemoval | main.go:90-134 | no removal is attempted unless the user agreed to the scan, selected something and confirmed; the executor is never handed an empty selection |
| Workflow.BulkChoice | main.go:117-125 | the bulk selection is empty or the whole listing, every entry marked |
| Workflow.AttemptsAreSelectedEntries | main.go:106-131 | every removal attempt is of a selected, marked entry whose path is the directory joined with a name the directory read returned; the tally accounts for every attempt |
| Workflow.RunDirectory | main.go:88-134 | a run on a directory ends as specified by the input and the oracles; its removal attempts and what they remove are exactly those of the selection it confirmed |
| Workflow.SingleFileConsent | main.go:153-162 | the file is removed exactly when the user agrees, it exists and its removal does not fail; it is kept exactly when the user declines |
| Workflow.HandleSingleFile | main.go:137-163 | one prompt, then on yes exactly one removal attempt of that path, as specified |

## Left out

- Flag parsing, the help and version text, process exit codes and fatal
  messages (main.go:37-81) are not modelled. The same goes for resolving the
  target path and asking whether it is a file or a directory (main.go:66-86).
  The two kinds of target are separate entry points, `RunDirectory` and
  `HandleSingleFile`.
- Terminal output is not modelled: the coloured text, the tables of
  `showFileTable` and the progress spinner. The prompt and status messages
  are not modelled either; the model keeps only the decisions and the
  reports behind them.
- The size formatter's one-decimal value is not modelled, and neither is
  modification-time formatting. The model keeps the integer quotient
  bracket and the unit; the float division and `%.1f` are left out.
  Modification times are an opaque integer stamp.
- Prompt.Lower: lower-cases ASCII letters only, not the full Unicode case
  mapping.
- Prompt.Confirm: every prompt reads the same input stream. In the program,
  each `confirm` call creates a new buffered reader. Input that such a
  reader buffered beyond its line is lost when it is discarded; that loss
  is not modelled.
- Prompt.Stdin.ReadString: in the model the end of input is permanent.
  After a failed read the stream is spent, and every later prompt of the
  run answers no. The program's buffered reader reports a read error once
  and reads the underlying input again on the next call. So after an
  end-of-input on a terminal, or after a transient error, the remaining
  per-entry prompts and the final confirmation can still read new lines.
  That behaviour is not modelled. Read errors other than the end of input
  are treated like it.
- Listing.BaseNameOfJoin: requires a non-empty entry name without a
  separator. A directory read never returns anything else.
- `filepath.Join` also cleans its result. The model joins with one
  separator. The directory path comes from `filepath.Abs`, which returns a
  clean path, and entry names contain no separator, so nothing is lost.
- The display copy `displayEntries` in `selectFilesInteractively` is not
  modelled. It only feeds the prompt text.
- Deletion.FileSystem.RemoveAll: a recursive removal either succeeds
  completely or fails leaving everything in place. A removal that deletes
  part of a tree before failing is not modelled. Whether a removal fails is
  fixed per path, as an oracle.
- The TypeScript variant `main.ts` is not part of this model. Its decisions
  duplicate those of `main.go`.
