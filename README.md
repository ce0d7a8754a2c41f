# Context-menu actions: a Dafny model of the action engine

The VS Code extension `vscode-context-menu-actions` runs a list of editor
commands ("actions", such as formatters or organize-imports) over a set of files,
one (file, action) pair at a time. For each pair it opens the document, executes
the command and then waits a short time for the document's first change
notification. The extension has two versions of this engine:

- `src/ContextMenuActions.ts` builds the task list sorted by file path. It runs
  the list through a generator that the caller can cancel between steps.
- `src/extension.ts` (`applyActions`) is the older orchestration. It builds the
  list over the files as given, reorders it by action name, and runs it in a
  loop. The loop checks a cancellation token, sorts every item into
  "completed" or "errors", and can save and close editors.

Both versions pick pairs with the same eligibility rule. `src/extension.ts`
keeps its own copy of the one in `src/filters.ts`. A file whose extension ends
in `.ts` takes every action. Any other file takes only
the actions whose name contains `format`, compared without regard to case.

The model is split into these modules:

- `Wrappers` (`wrappers.dfy`): the `Option` and `Result` types.
- `Basics` (`basics.dfy`): two small facts about sequences and arithmetic
  that the proofs share.
- `JsString` (`js_string.dfy`): JavaScript's `<` on strings, which compares
  UTF-16 code units, and `RegExp.test` for literal patterns.
- `Host` (`host.dfy`): uris, document events, and how a host call ended.
- `Filters` (`filters.dfy`): the two filters, with node's POSIX
  `path.extname` and `path.basename`.
- `FileActions` (`file_action.dfy`): the `FileAction` and `FileActionResult`
  records, the per-file stream views, and one file's records.
- `ContextMenuActions` (`context_menu_actions.dfy`): `getAllFileActions`,
  `runAction`, and `fileActionGenerator` as a class whose `Next` method is one
  resume.
- `Extension` (`extension.dfy`): the filter copies, the task list, the stable
  sort by action, the run loop, and `resolveFiles`.

Things the model does not run are replaced by parameters:

- The host calls become outcome values: a call returned, or threw with a message.
- The change wait becomes the delay of the first change event.
- Clock readings become a start value and the elapsed time.
- The cancellation token becomes one boolean per loop check.
- The engine-dependent `actions.sort(...)` becomes the permutation it leaves the
  array in.

The record builders take the eligibility rule as a parameter. Both
orchestrations pass their own `filterFileTypeAction`, and `FilterCopyAgrees`
proves that the two copies agree.

Some behaviour of the code is worth stating outright, since a reader might
expect otherwise:

- The code removes no duplicates. A uri or action given twice yields its records
  twice (`BuildTasksCount`).
- Neither version applies an "organize/fix first" order. In `src/extension.ts`
  the `actions.sort(...)` calls have no effect on the order of the run. The
  stable `_.sortBy` by action name that follows fixes the order completely, and
  within one action it keeps the uris' input order (`ReorderingIrrelevant`,
  `FinalOrder`).
- The change-wait windows are constants: 500 ms in `runAction` and 150 ms in
  `applyActions`. The configured timeout is never read.
- The wait subscribes to the change stream only in `toPromise()`, so after the
  command has returned. A change made while the command was still running is
  not seen. The model's `firstChange` is measured from that subscription.

## Model

| member | source | states |
|---|---|---|
| `JsString.TestIffOccurs` | src/filters.ts:8 | A literal regular-expression test succeeds exactly when the pattern occurs at some index of the string, with ASCII letters compared without regard to case when the `i` flag is set. |
| `JsString.Less` | src/ContextMenuActions.ts:45-47 | `>` between two paths, read from the other side: lexicographic order on the strings' UTF-16 code units, a proper prefix being smaller, computed one character at a time. Its partners `LessIrreflexive`, `LessAsymmetric`, `LessTrichotomy` and `LessTransitive` make it a strict total order. |
| `JsString.Utf16Order` | src/ContextMenuActions.ts:45-47 | The order `Less` computes character by character is exactly lexicographic order on the strings' UTF-16 encodings, surrogate pairs included. |
| `JsString.SurrogateOrder` | src/ContextMenuActions.ts:45-47 | A character above U+FFFF is compared by its leading surrogate: U+1F600 sorts before U+FF5E although its scalar value is larger. |
| `Filters.Basename` | src/filters.ts:4 | The basename that `path.extname` works on is the last segment of the path once separators at its end are dropped: a suffix of the trimmed path that is all of it or follows a separator, and holds no separator. |
| `Filters.BasenameExt` | src/filters.ts:4 | The extension of a basename is empty or starts with its only dot, and it is a suffix of the basename. It is non-empty exactly when the basename has a dot after its first character and is not `..`, so a dotfile such as `.bashrc` has no extension. |
| `Filters.Extname` | src/filters.ts:4 | The extension is empty or starts with its only dot, and it is a suffix of the basename. It is non-empty exactly when the basename has a dot after its first character and is not `..`, so a path ending in a dotfile has no extension. |
| `Filters.FilterFileTypeAction` | src/filters.ts:3-9 | The eligibility rule: a file whose extension matches `/\.ts$/` takes every action, any other file only the actions matching `/format/i`. An action that mentions `format` is eligible for every file. |
| `Filters.ByEventUri` | src/filters.ts:10 | The per-file event filter: an event passes when its document's uri renders as the same string as the file's. |
| `Filters.TsExtensionIffBasename` | src/filters.ts:4-5 | `/\.ts$/` matches the extension exactly when the basename ends in `.ts` and has at least one character before that dot. |
| `Filters.TsBasename` | src/filters.ts:4-5 | The same fact stated on a basename alone: `/\.ts$/` matches its extension exactly when it ends in `.ts` with at least one character before that dot. |
| `Filters.TsByName` | src/filters.ts:4-5 | Whether `dir/name` counts as a `.ts` file depends on `name` alone, in every directory. |
| `Filters.ExtnameExamples` | src/filters.ts:4-5 | The basename `a.d.ts` counts as a `.ts` file, while `x.tsx` and the dotfile `.ts` do not (and by `TsByName`, in any directory). |
| `Filters.TsFileTakesEveryAction` | src/filters.ts:4-7 | A file whose extension matches `/\.ts$/` is eligible for every action, whatever the action is. |
| `Filters.OtherFileTakesFormatActions` | src/filters.ts:8 | Any other file is eligible for an action exactly when `format` occurs in the action, compared without regard to case. |
| `Filters.EligibilityMonotone` | src/filters.ts:3-9 | Every action eligible for some file is eligible for any `.ts` file. |
| `Filters.ByEventUriOwnEvents` | src/filters.ts:10 | The per-file event filter lets through every event about the file's own uri. |
| `FileActions.Observe` | src/ContextMenuActions.ts:53-54 | A filtered view delivers only events from its source stream about its file's uri. It delivers every such event. |
| `FileActions.UriTasks` | src/ContextMenuActions.ts:55-62 | One file gets at most as many records as there are actions. |
| `FileActions.UriTasksRecords` | src/ContextMenuActions.ts:55-62 | Each of one file's records pairs that file with one of the listed actions that is eligible for it, and carries that file's views. |
| `FileActions.UriTasksCount` | src/ContextMenuActions.ts:55-62 | A record occurs among one file's records once for each time its action is listed, if it belongs to that file and is eligible. Otherwise it never occurs. |
| `FileActions.UriTasksReorder` | src/ContextMenuActions.ts:55-62 | Reordering the actions does not change which records one file gets or how many. |
| `ContextMenuActions.SortByFsPath` | src/ContextMenuActions.ts:43-51 | The caller's array is rearranged in place into a permutation of itself, in non-decreasing `fsPath` order. |
| `ContextMenuActions.GetAllFileActions` | src/ContextMenuActions.ts:42-65 | The uris are sorted in place, and the result holds, for each uri in that sorted order, its eligible actions in the caller's order. |
| `ContextMenuActions.BuildTasks` | src/ContextMenuActions.ts:52-64 | The records for the uris in the order given, each uri's eligible actions in the caller's order (partners: the `BuildTasks…` lemmas below). |
| `ContextMenuActions.BuildTasksRecords` | src/ContextMenuActions.ts:52-64 | Every record pairs a listed uri with a listed action that is eligible for it, and carries that uri's own views. |
| `ContextMenuActions.BuildTasksLength` | src/ContextMenuActions.ts:52-64 | There are at most as many records as the number of uris times the number of actions. |
| `ContextMenuActions.BuildTasksCount` | src/ContextMenuActions.ts:52-64 | An eligible pair occurs as often as its uri occurs times as often as its action occurs, so duplicates are kept. An ineligible pair never occurs. |
| `ContextMenuActions.BuildTasksOrderedByPath` | src/ContextMenuActions.ts:43-64 | Over uris sorted by `fsPath`, the records come in non-decreasing `fsPath` order. |
| `ContextMenuActions.RecordViewsOwnFile` | src/ContextMenuActions.ts:53-59 | A record's change view delivers exactly the change events about its own uri, and its will-save view exactly the will-save events about that uri. |
| `ContextMenuActions.RunAction` | src/ContextMenuActions.ts:11-33 | A failure to open the document or to execute the command propagates with its message. Otherwise there is a result for the action with `start <= finish`. Its `didTimeout` is true exactly when no change arrived within 500 ms. |
| `ContextMenuActions.FileActionGenerator.constructor` | src/ContextMenuActions.ts:67-68 | A fresh generator has started nothing and has not begun. |
| `ContextMenuActions.FileActionGenerator.Next` | src/ContextMenuActions.ts:67-75 | Each resume starts at most one task, the next index in order. A finished generator stays finished. A `true` fed back finishes it without starting anything. Otherwise it yields while records remain. |
| `ContextMenuActions.StartedCount` | src/ContextMenuActions.ts:69-73 | The generator never starts more tasks than there are records. |
| `ContextMenuActions.StartedCountAt` | src/ContextMenuActions.ts:69-73 | With no cancellation before the k-th yield, task k is started. It is the last one exactly when it is the last record or `true` is fed back after it. |
| `ContextMenuActions.StartedCountNoCancel` | src/ContextMenuActions.ts:69-73 | When `true` is never fed back, every record's task is started. |
| `ContextMenuActions.StartedCountCancelled` | src/ContextMenuActions.ts:69-74 | After `true` is fed back following the k-th yield, no task with an index above k is started. |
| `ContextMenuActions.FirstCancel` | src/ContextMenuActions.ts:69-72 | The earliest `true` fed back at or before a given `true`. |
| `ContextMenuActions.RunGenerator` | src/ContextMenuActions.ts:67-75 | A caller driving the generator to the end starts exactly the first `StartedCount` records, in index order, none skipped or repeated. |
| `Extension.ByEventUri` | src/extension.ts:27 | This file's own copy of the per-file event filter (partner: `ByEventUriCopyAgrees`). |
| `Extension.FilterFileTypeAction` | src/extension.ts:31-37 | This file's own copy of the eligibility rule, with both regular expressions modelled as literal tests (partner: `FilterCopyAgrees`). |
| `Extension.TsTestsAgree` | src/extension.ts:33 | The anchored test `/\.ts$/` on the extension holds exactly when it ends in `.ts`. |
| `Extension.FilterCopyAgrees` | src/extension.ts:31-37 | This file's `filterFileTypeAction` has the same truth table as the one in `src/filters.ts`. |
| `Extension.ByEventUriCopyAgrees` | src/extension.ts:27 | This file's `byEventUri` accepts the same events as the one in `src/filters.ts`. |
| `Extension.TaskList` | src/extension.ts:62-78 | The list before the reorder: for each uri in input order, its eligible actions in the order the k-th `actions.sort` left the shared array (partners: the `TaskList…` lemmas below). |
| `Extension.TaskListRecords` | src/extension.ts:62-78 | Before the reorder, every record pairs a listed uri with an enabled action that is eligible for it, and carries that uri's views. |
| `Extension.TaskListAppend` | src/extension.ts:62-78 | The uris are taken in input order: the list for two runs of uris is the first run's list followed by the second's. |
| `Extension.TaskListBlock` | src/extension.ts:62-78 | The k-th uri's records form one block between those of the earlier and later uris. The block's size is that uri's number of eligible enabled actions, whatever order the array was left in. |
| `Extension.TaskListSamePairs` | src/extension.ts:62-78 | Before the reorder, the list holds the same records, with the same counts, as the `src/ContextMenuActions.ts` list over the same, unsorted uris. |
| `Extension.TaskListLength` | src/extension.ts:62-78 | The list has at most as many records as the number of uris times the number of actions. |
| `Extension.Insert` | src/extension.ts:95 | Inserting a record adds exactly that record. |
| `Extension.SortByAction` | src/extension.ts:95 | The reorder is a permutation of its input. |
| `Extension.InsertSorted` | src/extension.ts:95 | Inserting into a list sorted by action name keeps it sorted. |
| `Extension.InsertWithAction` | src/extension.ts:95 | Inserting a record places it after every record with the same action and moves no records of other actions relative to each other. |
| `Extension.SortByActionSorted` | src/extension.ts:95 | After the reorder, the list is in ascending order of action name. |
| `Extension.SortByActionStable` | src/extension.ts:95 | Records with the same action name keep their relative order. |
| `Extension.SortedUnique` | src/extension.ts:95 | Two lists sorted by action name that agree on the order within every action are equal, so the stable sort has exactly one possible result. |
| `Extension.UriTasksWithAction` | src/extension.ts:65-76 | One uri's records for action `a` are its record for `a`, once for each time `a` is enabled, if eligible. |
| `Extension.TaskListWithAction` | src/extension.ts:62-78 | The records of each action come in uri input order and do not depend on how `actions.sort` left the array. |
| `Extension.FinalOrder` | src/extension.ts:62-95 | The list the loop runs is sorted by action name, and within one action its records follow the uris' input order. |
| `Extension.ReorderingIrrelevant` | src/extension.ts:66-95 | Any two orders that the `actions.sort(...)` calls could leave give the loop the same list. |
| `Extension.StopIndex` | src/extension.ts:96 | The loop runs up to the first check that finds cancellation requested, or over the whole list. |
| `Extension.Completed` | src/extension.ts:117 | No more records complete than were processed. |
| `Extension.Errors` | src/extension.ts:119 | No more failures are recorded than records were processed. |
| `Extension.ItemError` | src/extension.ts:101-119 | The error one iteration records: the message of the first call that threw, among opening the document, the command, `saveAll` under the save flag and the close under both flags; none when all returned. The change wait never contributes (partner: `TimeoutSwallowed`). |
| `Extension.ItemEffects` | src/extension.ts:101-123 | The host calls one iteration makes, in order, stopping at the first that throws, followed by the error box when the message does not read as binary (partners: `SaveGating`, `ErrorShownIffNotBinary`). |
| `Extension.RunItem` | src/extension.ts:101-123 | One iteration makes its calls in order, and the first one that throws ends the `try`. It reports the error that `ItemError` names. It requests the effects `ItemEffects` lists, and the error box only for a message that does not read as binary. |
| `Extension.RunLoop` | src/extension.ts:96-140 | The loop processes the records in index order until cancellation. Completed plus errors equals processed, which is at most the list length. The closing message is a warning exactly when `errors` is non-empty. |
| `Extension.ProcessedPartition` | src/extension.ts:96-119 | Each processed record lands in exactly one of `completedFileActions` and `errors`. Together they hold each processed record as often as it was processed. |
| `Extension.OutcomeRecorded` | src/extension.ts:101-123 | A failed iteration is recorded in `errors` with the message of what it threw. A successful iteration's record is in `completedFileActions`. |
| `Extension.TimeoutSwallowed` | src/extension.ts:104-109 | Whether and when a change arrived plays no part in an iteration's failure. An iteration fails exactly when one of the calls it made threw. |
| `Extension.AllReturnedNoErrors` | src/extension.ts:101-117 | When every call returns, every processed record completes and `errors` stays empty, even if every change wait timed out. |
| `Extension.ErrorShownIffNotBinary` | src/extension.ts:118-122 | The error box for a message is shown exactly when the iteration failed with that message and the message does not match `seems to be binary`. |
| `Extension.SaveGating` | src/extension.ts:111-116 | `saveAll` runs only when the save flag is set. `closeUnmodifiedEditors` runs only when both the save and close flags are set. |
| `Extension.BuildTaskList` | src/extension.ts:62-78 | The list is built in uri order, and the shared array ends as the last reordering left it. The list has at most uris times actions records. |
| `Extension.ApplyActions` | src/extension.ts:39-145 | Builds the task list, reorders it by action name, and runs the loop over it. The shared array ends as the last `actions.sort` left it. |
| `Extension.ResourceUris` | src/extension.ts:174-175 | Each resource state maps, in order, to its `resourceUri`. |
| `Extension.ResolveFiles` | src/extension.ts:164-180 | No arguments give `[]`. A clicked uri with exactly two arguments gives the second argument. A clicked uri with any other count gives `[clicked]`. Non-uri arguments give their `resourceUri`s in order. |

## Left out

- `src/Events.ts`: host listener registration and the stream fan-out are not modelled. A view is "the shared stream of one source, filtered by uri". Disposal is not modelled either, so nothing is claimed about disposing twice.
- `src/config.ts`: it only reads the host configuration store. The save and close flags and the enabled actions are parameters.
- `src/timing.ts` is not part of this model. Clock readings are a start value and a non-negative elapsed time.
- `getRecursiveUris` (src/extension.ts:147-162): filesystem existence checks, stat calls and workspace searches are all I/O.
- `promptAction`, `activate`, `deactivate`, `getFileActionString`: command registration, quick-pick UI and logging.
- The ETA arithmetic, the progress increment and the frame delay in the loop (src/extension.ts:83, 125-133): floating point and UI only. They cannot throw, so they do not affect the loop's bookkeeping.
- The logging subscriptions on the change and editor streams and all `console` output.
- `actions.sort(action => ...)` (src/extension.ts:66): its one-argument comparator is inconsistent, and its result depends on the JavaScript engine. It is modelled only as "the shared array becomes some permutation of itself" (`Extension.Reorderings`).
- The real-time race between a change event and rxjs `timeout`/`first`: replaced by the delay of the first change, compared against the window.
- Windows paths: `path.extname` is modelled as node's POSIX version.
- A change that arrives exactly when the window ends counts as a timeout. The model uses a strict `<`, and the real race at that instant depends on the scheduler.
- `ContextMenuActions.SortByFsPath`: only sortedness and the permutation are stated. The in-place sort's stability is not stated.
- The generator's return value is `Finished`, which stands for the `null` it returns. The promises it yields are modelled as the index and record whose `runAction` was started.
- `Extension.RunLoop`: a thrown `null` or `undefined` is not modelled. Reading `e.message` in the `catch` block (src/extension.ts:120) would then throw a `TypeError`, which ends the run without the closing summary. A thrown value that has no `message` property is covered: `test` converts the missing message to the string `undefined`, which does not read as binary, so the run behaves as for a throw with the message `undefined` and goes on.
- Strings are sequences of Unicode scalar values. JavaScript's `<` is modelled over their UTF-16 encoding (`JsString.Utf16`), so the order of paths and action names is JavaScript's, characters above U+FFFF included. The literal regular-expression tests compare characters rather than code units; for the ASCII patterns the code uses, the two give the same matches.
- `Extension.ResolveFiles` is modelled only for arguments whose runtime shapes match its casts (`Extension.ArgsAsCast`). Other shapes produce whatever the casts happen to give.
