# Interactive video editor: export, save, player, store and IPC bridge in Dafny

This project models the core of an Electron desktop editor for interactive (branching)
videos. An author draws a graph in which video nodes lead to text choice nodes, which lead on
to further videos. The model covers five parts of the program:

- **Export** (`export.dfy`, over `file_system.dfy`). This is the main process's
  `perform-export` handler. It creates the export directory and its `videos` subdirectory. It
  copies every existing source video there under a generated name, then writes a
  self-contained `index.html` player. On the way it reports integer progress values: `10`, a
  band up to `70` per file, then `80, 90, 100`, or a final `0` when anything throws. The
  filesystem is an abstract value: which paths exist, what the files hold, which paths fail
  when touched and the creation time a `stat` reports. `Date.now()` and the random draw of
  each loop iteration are inputs. `PerformExport` is proved equal to the specification
  function `ExportRun`, and the lemmas about `ExportRun` state what an export promises.
- **Save** (`save.dfy`). This is `performSave` and the process-wide `currentFilePath`. The
  save dialog's answer is an input, the `.ive` extension rule a function. The rule's case
  folding is ASCII only. That is exact here: no other character lower-cases to text ending in
  a letter of `.ive`.
- **Player** (`player.dfy`). This is the script embedded in the exported page. It builds a
  node map from the graph's cells, picks an entry video and reacts to a video ending and to
  option clicks. `Player.Page` holds the script's variables, and each of its methods is proved
  equal to a pure transition on a `Screen` value. The transitions keep `Coherent`, the
  screen's invariant.
- **Store** (`store.dfy`). This is the renderer's Pinia store (`useAppStore`), with its
  project list, current project and loading flag, as the class `Store.AppStore`. The getters
  `projectCount` and `hasActiveProject` are `ProjectCount` and `HasActiveProject`, and
  `CreateProject`'s contract is stated through them.
- **Preload bridge** (`preload.dfy`). This is `window.electron`'s `send`, `receive` and
  `invoke`, with their channel whitelists and the per-channel listener replacement, as the
  class `Preload.Bridge`.

`wrappers.dfy` holds `Option` and `Result`. `graph_data.dfy` holds the graph cells and the
player document the export embeds.

Two behaviours of the program are worth stating because they read differently from the
comments and messages around them:

- **Progress order.** The progress values are meant to rise: the comments at
  `src/main/index.js:336` and `:388-395` describe a band climbing from 10 to 70. With the
  formulas `floor(10 + i/T*60)` before file `i` and `floor(10 + (i+1)/T*59)` after it, they do
  not always rise.
  - `ExportProgressMonotone` proves a successful export's values non-decreasing for
    `T <= 60`.
  - `ProgressDropsAtSeventy` shows a drop with 70 files: file 63 is announced at 64 and
    reported copied at 63.
  - `ProgressDropsAtEightyOfHundred` shows the drop with 100 files: file 80 is announced at 58
    and reported copied at 57.
  - `ProgressDropsForLargeExports` shows that with more than 120 files the second-to-last file
    is announced at 69 and, when its source exists and is copied, reported at 68.
  - For a file that is not the last, the "copied" value never exceeds 68, although the comment
    speaks of a band up to 69.
- **Graphs without a video node.** The handler never reads the graph, so a graph without a
  video node still exports (`ExportSucceedsWithoutFaults` does not depend on the graph); only
  the exported page fails to start (`Player.NoVideoNodeFails`: loading shows the error page).

## Model

| member | source | states |
|---|---|---|
| FileSystem.Join | src/main/index.js:315 | `path.join` puts the directory first, followed by the name |
| FileSystem.JoinEndsWithName | src/main/index.js:315 | the joined path ends with the name |
| FileSystem.SiblingNotInside | src/main/index.js:310-315 | `/a/outtakes/x.mp4` starts with the text `/a/out` but is not inside it; `/a/out/videos/x.mp4` and `/a/out` are |
| FileSystem.JoinInside | src/main/index.js:310-315 | `path.join(dir, name)` with a relative name lies inside `dir` |
| FileSystem.InsideTransitive | src/main/index.js:310-315 | a path inside a directory that lies inside another lies inside that one too |
| FileSystem.JoinAncestors | src/main/index.js:315 | the proper ancestors of `path.join(dir, name)`, for a name without separators, are those of `dir` and `dir` itself |
| FileSystem.MakeDir | src/main/index.js:310-318 | creating a directory fails exactly when the path is empty (then with ENOENT), faults, or has a regular file as a proper ancestor (then with ENOTDIR); on success the path exists and no file changes |
| FileSystem.CopyFile | src/main/index.js:377-379 | a copy succeeds exactly when neither path faults, the source is a file, no proper ancestor of the destination is a regular file (else ENOTDIR) and the destination is not a directory; then only the destination changes, to the source's content |
| FileSystem.WriteFile | src/main/index.js:429-433 | a write succeeds exactly when the path does not fault, has no regular file as a proper ancestor (else ENOTDIR) and is not a directory; only that file changes |
| Export.ProcessingProgress | src/main/index.js:337 | the value announced before file `i` lies in [10, 70) |
| Export.CopiedProgress | src/main/index.js:389-396 | the value after copying is exactly 70 for the last file and within [10, 68] for any other |
| Export.CopiedNotBelowProcessing | src/main/index.js:337-396 | with at most 60 files, the value after copying file `i` is not below the value announced before it |
| Export.CopiedNotAboveNext | src/main/index.js:337-396 | the value after copying file `i` never exceeds the value announced for file `i + 1` |
| Export.ProcessingNotDecreasing | src/main/index.js:337 | the values announced before successive files never decrease |
| Export.ProgressDropsForLargeExports | src/main/index.js:337-396 | with more than 120 files, the second-to-last file is announced at 69 and reported copied at 68, so progress goes backwards |
| Export.ProgressDropsAtSeventy | src/main/index.js:337-396 | with 70 files, file 63 is announced at 64 and reported copied at 63 |
| Export.ProgressDropsAtEightyOfHundred | src/main/index.js:337-396 | with 100 files, file 80 is announced at 58 and reported copied at 57 |
| Export.Decimal | src/main/index.js:370-372 | a number prints as a non-empty string of digits, a single digit exactly below 10 |
| Export.DecimalInjective | src/main/index.js:370-372 | distinct numbers print differently |
| Export.Basename | src/main/index.js:372 | `path.basename` yields a segment with no separator, no longer than the path, and a path without separators itself |
| Export.TrimEnd | src/main/index.js:372 | trimming ends at the start of the path or just after a character that is not a separator |
| Export.TrimEndSkipsSeparators | src/main/index.js:372 | everything trimming drops is a separator |
| Export.TrimEndSkip | src/main/index.js:372 | dropping trailing separators first does not change where trimming ends |
| Export.SegmentStart | src/main/index.js:372 | a segment starts at the start of the path or just after a separator |
| Export.SegmentHasNoSeparator | src/main/index.js:372 | a segment holds no separator |
| Export.TrimEndPrefix | src/main/index.js:372 | trimming within a prefix of the path ends where it does in the path |
| Export.SegmentStartPrefix | src/main/index.js:372 | a segment within a prefix of the path starts where it does in the path |
| Export.BasenameStrip | src/main/index.js:372 | trailing separators do not change the basename |
| Export.BasenameEmpty | src/main/index.js:372 | the basename is empty exactly when the path consists of separators only |
| Export.SplitAtUnderscore | src/main/index.js:370-372 | strings joined at an underscore by underscore-free heads split back into the same parts |
| Export.DecimalHasNoUnderscore | src/main/index.js:370-372 | a printed number contains no underscore |
| Export.VideoFileNameInjective | src/main/index.js:370-372 | the generated name `video_<ts>_<rand>_<basename>` determines clock reading, draw and base name, so two copies differing in any of them never collide |
| Export.BasenameSegment | src/main/index.js:372 | for a path ending in exactly `n` separators, the basename is the segment just before them, preceded by a separator or the start of the path |
| Export.VideoFileNameHasNoSeparator | src/main/index.js:370-372 | a generated name contains no separator |
| Export.PerformExport | src/main/index.js:305-469 | the handler's result, progress values and final filesystem are those `ExportRun` defines: the directories first, the copy loop over the entries, the player page, and 0 progress on any failure |
| Export.CopyVideoProgress | src/main/index.js:337-396 | one iteration sends the value announced before its file and, only if it copied, the value after copying |
| Export.CopyVideosProgressBand | src/main/index.js:334-397 | every value the copy loop sends lies between 10 and 70 |
| Export.CopyVideosMonotone | src/main/index.js:334-397 | with at most 60 files, the copy loop extends a non-decreasing sequence and ends at or below 70 |
| Export.ExportProgress | src/main/index.js:320-468 | `ProgressReport`: the last value is non-zero exactly on success. On success: the run starts at 10, the loop's values lie in [10, 70], it ends with 80, 90, 100, and the result names `exportDir/index.html`. On failure: one final 0 follows only values in [10, 80] |
| Export.CopiedExportProgress | src/main/index.js:334-468 | once both directories exist, the run's progress has the shape `ExportProgress` states |
| Export.ExportProgressMonotone | src/main/index.js:320-449 | with at most 60 files, a successful export sends non-decreasing values ending at 100 |
| Export.CopyVideoMapping | src/main/index.js:348-386 | one iteration either leaves both mappings alone or, for a non-empty path, maps the entry's node id to `videos/` plus its generated name and adds that id to the creation times |
| Export.MappedFromExtend | src/main/index.js:348-386 | such an iteration extends `MappedFrom` from the first `i` entries to the first `i + 1` |
| Export.CopyVideosMapping | src/main/index.js:348-386 | every mapped node id comes from an entry with a non-empty path and maps to `videos/` plus the name generated in that entry's iteration; the creation-time mapping has the same keys |
| Export.CopyVideosMapsExistingSources | src/main/index.js:348-386 | the loop only adds: existing paths remain, mapped ids stay mapped, and every remaining entry whose non-empty source already exists gets mapped |
| Export.CopyVideoStaysInside | src/main/index.js:348-386 | one copy step creates nothing outside the export directory (`Inside`: the directory itself or a path below it at a separator, so `/a/outtakes` is not inside `/a/out`) and does not map an id whose entry lacks a source (empty, or neither existing beforehand nor inside the export directory) |
| Export.CopyVideosSkipsMissing | src/main/index.js:348-386 | an id whose entries all lack a source (empty, or neither existing beforehand nor inside the export directory, in the sense of `Inside`) is never mapped |
| Export.EnsureDirInside | src/main/index.js:310-318 | creating a directory inside a directory, in the sense of `Inside`, creates nothing outside it |
| Export.ExportPathsInside | src/main/index.js:310-315 | the `videos` directory and `index.html` lie inside the export directory, and `index.html` is longer than `videos`, which is longer than the export directory |
| Export.CopyTargetInside | src/main/index.js:370-379 | a generated name joined to a directory inside the export directory lies inside the export directory and is longer than that directory |
| Export.JoinVideos | src/main/index.js:370-386 | the copy's destination is the mapped relative path resolved against the export directory |
| Export.CopyVideosPathsResolve | src/main/index.js:370-386 | every mapped relative path, resolved against the export directory, names a file that exists |
| Export.ExportMapping | src/main/index.js:348-433 | a successful export writes a page at `index.html` embedding the graph unchanged and a mapping that obeys `MappedFrom`, all of whose paths resolve to existing files, and that maps every entry whose source existed beforehand |
| Export.MissingSourceNotMapped | src/main/index.js:348-386 | a node none of whose entries has a source (every path empty, or naming nothing that exists and not lying inside the export directory, where the export itself could have created it) is absent from the written mapping, and the export still writes its page |
| Export.JoinInjective | src/main/index.js:377-379 | `path.join(dir, name)` determines the name |
| Export.DistinctCopies | src/main/index.js:370-379 | iterations with different clock readings or draws copy to different files |
| Export.VideoIsNotIndex | src/main/index.js:379-433 | no copied video lands on `index.html` |
| Export.SuppliedAfterWrite | src/main/index.js:377-433 | writing another file keeps a mapped key's copy as it was |
| Export.SuppliedAfterUpdate | src/main/index.js:375-386 | mapping another key keeps a mapped key's entries as they were |
| Export.SuppliedByCopy | src/main/index.js:370-386 | copying an entry makes it the supplier of its node id: the id maps to its new name, records its source's creation time, and the copy holds the source's content |
| Export.SuppliedAcrossCopy | src/main/index.js:370-386 | with distinct draws, a key supplied by an earlier entry stays supplied by it when a later entry of another id is copied |
| Export.CopiedFromCopy | src/main/index.js:370-386 | copying entry `i` extends `CopiedFrom` from the first `i` entries to the first `i + 1` |
| Export.CopiedFromLater | src/main/index.js:348-386 | `CopiedFrom` over some entries holds over more entries |
| Export.CopiedFromIndex | src/main/index.js:429-433 | writing `index.html` leaves every copy in place |
| Export.CopyVideoContents | src/main/index.js:348-386 | one iteration keeps creation times and every file outside the export directory (in the sense of `Inside`, so siblings such as `/a/outtakes` included) untouched and extends `CopiedFrom` by one entry |
| Export.CopyVideosContents | src/main/index.js:348-386 | the copy loop ends with `CopiedFrom` over all entries and no file outside the export directory (in the sense of `Inside`) changed |
| Export.ExportContents | src/main/index.js:348-433 | with pairwise distinct clock readings or draws and no source inside the export directory (in the sense of `Inside`; sources in a sibling such as `/a/outtakes` are covered), a successful export maps each key to a copy, under the export directory, holding the content the supplying entry's source had, and records that source's creation time for the key |
| Export.CopyVideosSucceeds | src/main/index.js:348-386 | with no faulting path, no directory inside the export directory (`Inside`: the directory itself or a path below it at a separator, so `/a/outtakes` is not inside `/a/out`) except the two the export makes, no regular file at or above `videos`, and sources that are not directories and not inside the export directory, the copy loop never aborts and these conditions still hold after it |
| Export.ExportSucceedsWithoutFaults | src/main/index.js:305-457 | for a non-empty export directory path and under those conditions on the filesystem beforehand (an existing export directory, and sibling directories such as `/a/outtakes` beside `/a/out`, are allowed), the export succeeds with `exportDir/index.html`, however many sources are missing |
| Export.CopyIntoVideosSucceeds | src/main/index.js:370-379 | under those conditions copying an existing file into `videos` succeeds, adds no directory and keeps the conditions |
| Export.FileAtExportDirFails | src/main/index.js:310-318 | a regular file at the export directory passes the existence test, and then creating `videos` below it fails with ENOTDIR, so the export fails |
| Export.EmptyExportDirFails | src/main/index.js:310-318 | an empty export directory path does not exist for `existsSync`, and `mkdirSync` rejects it with ENOENT, so the export fails with the single progress value 0 and the filesystem unchanged |
| Save.WithExtension | src/main/index.js:194-196 | the saved path ends with `.ive` in some letter case, begins with the given path, equals it exactly when the given path already ends that way, and is the given path plus `.ive` otherwise |
| Save.WithExtensionIdempotent | src/main/index.js:194-196 | applying the extension rule twice equals applying it once: a suffix is never doubled |
| Save.UpperCaseExtensionKept | src/main/index.js:194-196 | `.IVE` and `.iVe` count as the extension and are kept as spelled |
| Save.Session.constructor | src/main/index.js:7 | the process starts without a current file path |
| Save.Session.NewFile | src/main/index.js:115-122 | a new file clears the current path and writes nothing |
| Save.Session.PerformSave | src/main/index.js:174-214 | the dialog is consulted only without a current path or for "save as"; a cancel returns nothing and changes nothing; otherwise the data goes to the chosen or current path with the extension rule applied; only a write that succeeds makes that path current, and a write failure is returned with the state unchanged |
| Player.NodeKind | src/main/index.js:624 | a node's kind is never empty, and is its data's `type` whenever that is non-empty |
| Player.NodeIdsMembers | src/main/index.js:618-629 | the node map's keys are the ids of the `rect`/`html` cells, each once |
| Player.NodeEntriesMembers | src/main/index.js:618-629 | the first pass makes a node, with that id and no targets yet, for exactly the ids of the `rect`/`html` cells |
| Player.NodeIdsMatchEntries | src/main/index.js:618-629 | the enumerated keys and the first pass's entries name the same ids |
| Player.PrefixStep | src/main/index.js:618-642 | each pass extends from a prefix of the cells to the next one by handling that one cell |
| Player.NodeEntriesLastWins | src/main/index.js:620-629 | a node is made from the last node cell carrying its id |
| Player.LinkedTargets | src/main/index.js:632-642 | the linking pass keeps every node and its fields and appends exactly the targets of the links leaving it, in declaration order |
| Player.NodeMapShape | src/main/index.js:618-646 | the node map has one node per node-cell id, with the kind and text of the last cell with that id and as targets the targets of its outgoing links in order, duplicates kept; links from non-nodes are dropped and targets are not checked |
| Player.NoLinksNoTargets | src/main/index.js:632-642 | without link cells no node gets a target |
| Player.Select | src/main/index.js:724 | filtering keeps exactly the ids that are nodes of the kind (and not excluded), and its first element is the first such id |
| Player.SelectConcat | src/main/index.js:724 | filtering preserves order: it distributes over concatenation |
| Player.FindEntryNode | src/main/index.js:649-674 | the entry is the first video node, in key order, that no edge points at; failing that, the first video node; there is none exactly when there is no video node |
| Player.SourcelessEdgeCounts | src/main/index.js:651-656 | an edge with a target but no source still keeps its target from being an entry |
| Player.Play | src/main/index.js:677-712 | a non-video id changes nothing. A video id becomes current with its targets downstream, even without a video path. Only with a path do the source change, the options clear and the creation-time line update; the line is shown exactly when the time is non-empty |
| Player.Show | src/main/index.js:715-747 | with a text node among the ids, the options become exactly the text nodes in order and playback is untouched; without one, the first video node plays after the options clear; with neither, only the options clear |
| Player.Click | src/main/index.js:750-774 | only a text node acts. With a text target, the options become its text targets; otherwise with a video target, the first one plays; otherwise, and for unknown or non-text ids, nothing changes |
| Player.Label | src/main/index.js:731 | an option's label is never empty |
| Player.Labels | src/main/index.js:727-735 | one non-empty label per option, in order |
| Player.InitialCoherent | src/main/index.js:562-614 | the loaded page, with nothing playing and the creation-time line hidden, satisfies the screen invariant |
| Player.PlayCoherent | src/main/index.js:677-712 | playing keeps the invariant: the current node is a video node whose targets are downstream, options are text nodes, the source is an embedded video path, and the creation-time line is shown only with a text |
| Player.ShowCoherent | src/main/index.js:715-747 | showing options keeps the invariant |
| Player.ClickCoherent | src/main/index.js:750-774 | clicking keeps the invariant |
| Player.EndedCoherent | src/main/index.js:777-783 | the end of a video keeps the invariant |
| Player.OpeningCoherent | src/main/index.js:786-797 | loading keeps the invariant |
| Player.NoVideoNodeFails | src/main/index.js:786-797 | without a video node, loading shows the error page and changes nothing else |
| Player.EndedOffersTextSuccessors | src/main/index.js:715-783 | when a video with a text successor ends, the options are exactly its text successors in link order, and what plays does not change |
| Player.EndedOptionsAreSuccessors | src/main/index.js:715-783 | unless a successor video starts, every option after a video ends was already shown or is a text successor of that video |
| Player.ChainIds | src/main/index.js:618-629 | for a chain a → t → b of distinct ids the node map's keys are a, t, b in that order |
| Player.ChainNodeEntries | src/main/index.js:618-629 | a chain's first pass makes video a, text t with its caption and video b |
| Player.ChainNodeMap | src/main/index.js:618-646 | a chain's node map has exactly a, t and b; a leads to t, t leads to b, b leads nowhere |
| Player.ChainTargetIds | src/main/index.js:651-656 | a chain's pointed-at ids are t and b |
| Player.ChainEntry | src/main/index.js:649-674 | a chain's entry node is a |
| Player.ChainOpening | src/main/index.js:786-797 | a chain opens by playing a, showing its creation time, with t downstream |
| Player.ChainEnded | src/main/index.js:777-783 | when a ends the choice t is offered under its caption |
| Player.ChainClick | src/main/index.js:750-774 | clicking t plays b without options and hides the creation time b lacks |
| Player.Page.constructor | src/main/index.js:562-614 | the page starts with the embedded data, an empty node map and the initial screen: nothing playing, no options, and an empty creation-time line, hidden as the stylesheet hides it |
| Player.Page.InitNodeMap | src/main/index.js:618-646 | the two passes over the cells build exactly `NodeIds` and `NodeMapOf` and leave the screen alone |
| Player.Page.PlayVideo | src/main/index.js:677-712 | the script's variables change as `Play` says; the node map does not change |
| Player.Page.ShowOptions | src/main/index.js:715-747 | the variables change as `Show` says |
| Player.Page.HandleOptionClick | src/main/index.js:750-774 | the variables change as `Click` says |
| Player.Page.OnEnded | src/main/index.js:777-783 | the variables change as `Ended` says |
| Player.Page.OnLoaded | src/main/index.js:786-797 | loading builds the node map the cells define, then changes the screen as `Opening` says |
| Store.NewProject | src/renderer/store/index.js:28-32 | a new project has the argument's fields plus `id` and `createdAt`; fields of the argument with those names override the generated ones |
| Store.Merged | src/renderer/store/index.js:54-58 | the updated project has the old fields, the updates winning over them, and a fresh `updatedAt` winning over both |
| Store.FindIndex | src/renderer/store/index.js:41-53 | the position found holds a project with the id and no earlier one does; none is found exactly when no project has it |
| Store.AppStore.constructor | src/renderer/store/index.js:5-10 | the store starts with its name, not loading, no current project and no projects |
| Store.AppStore.SetLoading | src/renderer/store/index.js:22-24 | only the loading flag changes |
| Store.AppStore.CreateProject | src/renderer/store/index.js:27-38 | exactly one new project is appended and made current and returned; `projectCount` grows by one and `hasActiveProject` holds |
| Store.AppStore.SetCurrentProject | src/renderer/store/index.js:41-48 | the answer is true exactly when a project has the id; the first such project becomes current; otherwise nothing changes |
| Store.AppStore.UpdateProject | src/renderer/store/index.js:51-67 | the answer is true exactly when a project has the id. Only the first such entry is replaced by its merge with the updates; the length and every other entry stay the same. The current project follows when its id matches. An absent id changes nothing |
| Preload.RejectionReason | src/main/preload.js:48 | the rejection message ends with the channel's name |
| Preload.InvokeReply | src/main/preload.js:34-49 | a call is forwarded, unchanged, exactly when its channel is one of the six invoke channels; otherwise it is rejected with a message naming the channel |
| Preload.Replace | src/main/preload.js:26-31 | after replacement the channel has exactly the new listener and every other channel keeps its listeners |
| Preload.ReplaceTwice | src/main/preload.js:26-31 | registering twice on one channel leaves only the second listener |
| Preload.SendChannelsNotInvokable | src/main/preload.js:34-49 | a send-only channel (`toMain`, `save-data`, `save-as-data`) is rejected by `invoke`, with a message naming it |
| Preload.ReceiveChannelsNotInvokable | src/main/preload.js:34-49 | so is every receive-only channel |
| Preload.Bridge.constructor | src/main/preload.js:4 | the bridge starts over a given listener registry with nothing sent or invoked |
| Preload.Bridge.Send | src/main/preload.js:6-12 | `toMain`, `save-data` and `save-as-data` are forwarded and everything else is silently dropped; the registry never changes |
| Preload.Bridge.Receive | src/main/preload.js:14-32 | on a whitelisted channel the new listener becomes the only one and other channels keep theirs; any other channel leaves the registry unchanged |
| Preload.Bridge.Invoke | src/main/preload.js:34-49 | the reply is `InvokeReply`'s, whitelisted requests are recorded, and the registry never changes |

## Left out

- Window creation, the menu, navigation blocking and the application lifecycle are Electron
  shell. The same goes for `openFile` and its JSON parsing, `saveFile`/`saveFileAs` and the
  `save-data` handlers, which only forward to `performSave`.
- `exportPackage`'s directory dialog and `select-video-file`'s dialog are left out. The
  `fsExistsSync`, `fsStatSync` and `fsReadFileSync` handlers are thin wrappers over Node's
  `fs` and are left out too.
- Progress messages, console output, `dialog.showErrorBox` and the `file-saved` notification
  are user-interface text. Each progress message is reduced to its number.
- Every `setTimeout` yield is scheduling only, including the 100 ms delay before auto-play.
  Auto-play is taken as immediate.
- `Date.now()`, `Math.random()` and the `toLocaleString` formatting of the creation time are
  inputs: `clock`, `rands` and `Fs.birthTimes`. The draw's range 0 to 999 is not imposed.
- Export.ProcessingProgress: uses exact integer division. JavaScript computes
  `Math.floor(10 + (i / T) * 60)` in floating point, which can round a value exactly on a
  boundary down by one.
- Export.CopiedProgress: uses exact integer division, which carries the same floating-point
  caveat.
- The HTML and CSS template text and the `JSON.stringify` embedding are left out. The written
  page is modelled as the document it embeds (graph, video mapping, creation times).
- Directories are a set of paths, not a tree: `mkdirSync` with `recursive` records only the
  path it was given, not the ancestors it creates. So ENOENT for a missing parent directory
  is not modelled. In the handler every parent exists by the time it is used.
- Paths are POSIX. `path.join` is modelled for joining a directory with a plain relative name,
  without normalising `..` or repeated separators. Containment (`FileSystem.Inside`) is
  tested on the path text at a separator boundary, so `/a/out/../x` counts as inside `/a/out`.
- ExportSucceedsWithoutFaults: assumes a non-empty export directory path. The empty path
  fails in `mkdirSync` with ENOENT (`EmptyExportDirFails`), and the directory dialog never
  returns it.
- Error messages are abbreviated to their error code and description, without the path Node
  appends.
- A missing or `null` `filePath` is modelled as the empty string. Both are falsy in the
  source.
- A file's content is modelled as a value. Byte-for-byte copying is the library's guarantee.
- `cell.position` is left out. A node cell without a position would make `initNodeMap` throw.
- A graph document without a `cells` array is left out.
- Node ids that look like array indices are left out. JavaScript enumerates such keys before
  the others, so the key order would not be declaration order.
- Node ids that collide with `Object.prototype` members, such as `constructor`, are left out.
- Store.Value: a project field holds `undefined`, `null`, a boolean, an integer or a string.
  Objects and arrays (which `===` compares by reference), non-integer numbers and `NaN` (which
  is not `===` to itself) are not representable, so id comparisons in `FindIndex`,
  `SetCurrentProject` and `UpdateProject` are modelled only for these kinds of value.
- Store objects are JavaScript objects held by reference. They are modelled as values, which
  agrees with the source because the store never mutates a project in place: `updateProject`
  builds a new object.
- Reply promises are values. The main process's answer to an invoked request is not part of
  this model.
- Preload's remaining listeners are left out: the `dragover`, `drop` and `DOMContentLoaded`
  listeners only prevent default browser behaviour or log.
- `scripts/`, `vite.config.js`, the router and the renderer's bootstrapping are build and
  configuration code.
