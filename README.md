# qrdbtool: batch extraction and file-list helpers, modelled in Dafny

qrdbtool is a Qt browser for the RDB archives of a game: it lists the files
of an archive, sorts and searches the list, previews textures and extracts
files. This project models two parts of it and proves properties of them.

**The batch-extraction dialog** (`workerdialog.h`, `workerdialog.cpp`).
`WorkerDialog` builds one `ExportWork` job per file index and hands them to a
one-thread pool. Each job checks its cancel flag, calls
`RdbFile::ExtractFile` and emits `errorSignal` or `workFinished`. The dialog
counts finished jobs and ends `exec()` with 1 (success), 0 (cancelled) or -1
(error).
- `worker.dfy` holds the classes (`IntCell` for the shared `int *priority`,
  `ExportWork`, `WorkerDialog`). Their methods update their fields in place.
- `batch.dfy` holds the same dialog as a state machine over any sequence of
  events: the pool takes a job, the job checks its cancel flag, a job's
  extraction returns, a queued signal reaches its slot, the user cancels, the
  user picks a priority. Facts that hold for every interleaving are proved
  there, by an invariant that every event keeps. The contracts of
  `OnWorkFinished`, `Reject` and `OnError` say that the dialog's new counters
  and code are the state machine's transition of the old ones; the other
  methods state their effect on the fields directly.

**Helpers of the main window** (`mainwindow.cpp`). Each has its own file:
- `hex_name.dfy`: `get_hex_name` and the all-or-nothing `GetSelectedHashes`.
- `wildcard.dfy`: `WildcardToRegExp`.
- `version_column.dfy`: the version text of `RdbEntryToGui` and its table
  `pkg_to_version`.
- `load_rdb.dfy`: the release → dead-file package chain of `LoadRdb`, and
  the `rdb_name` extension stripping.
- `item_order.dfy`: `MyTreeWidgetItem::operator<`.
- `image.dfy`: `SetImage`.
- `clipboard.dfy`: the two copy-to-clipboard actions.
- `qstring.dfy` and `ctypes.dfy` hold the QString operations and the C
  integer limits these use.

Calls into code that is not shown become parameters: `FindFileByID`,
`GetFileName`, `MakePathString`, `Utils::GetUnsigned`, the result of
`ExtractFile`, the order of two `QDate`s, and Qt's text order for the other
columns. One is fixed instead: `Utils::BeginsWith(fn, "0x", false)` is taken
to be a prefix test that ignores case (`HexName.HasHexPrefix`).

## Model

| member | source | states |
|---|---|---|
| Batch.RunOutcomeOf | workerdialog.cpp:172-186 | A job whose cancel flag is set at the first check is dropped: no ExtractFile call, no signal. Otherwise errorSignal is emitted exactly when extraction failed and cancel is still clear, and workFinished exactly when it succeeded and cancel is still clear. A cancel set during extraction suppresses both signals. A run emits at most one signal. |
| Batch.AfterWorkFinished | workerdialog.cpp:102-114 | onWorkFinished adds exactly 1 to jobs_finished. It ends with code 1 exactly when the new count equals max_jobs, and otherwise leaves the code alone. |
| Batch.AfterReject | workerdialog.cpp:116-130 | reject changes nothing once jobs_finished == max_jobs. Otherwise it ends with code 0. |
| Batch.AfterError | workerdialog.cpp:132-143 | onError ends with code -1 whatever happened before, and keeps the counters. |
| Batch.Broadcast | workerdialog.cpp:124-125 | Clearing the pool, then emitting cancelSignal, sets every job's cancel flag. Jobs still queued never run; every other job, including one the pool has taken but not yet checked, keeps its phase. |
| Batch.Step | workerdialog.cpp:102-143 | No event changes the number of jobs or max_jobs, and jobs_finished never decreases. |
| Batch.Start | workerdialog.cpp:63-100 | After DoExport there are n jobs, all queued with cancel clear, jobs_finished is 0, the dialog is open, and max_jobs is n when n fits in an int. |
| Batch.StartInv | workerdialog.cpp:63-100 | The batch as DoExport leaves it satisfies the dialog invariant, for up to INT_MAX jobs. The invariant: max_jobs is the job count; jobs_finished counts delivered workFinished signals; at most one run() is under way on the pool's thread; an open non-empty batch has a job not yet counted; each terminal code matches what the jobs did. |
| Batch.StepInv | workerdialog.cpp:102-143 | Every event keeps the dialog invariant. |
| Batch.ReplayInv | workerdialog.cpp:102-143 | Any sequence of events keeps the dialog invariant. |
| Batch.FinishedWithinMax | workerdialog.cpp:102-114 | In every run, jobs_finished stays between 0 and max_jobs, whatever the order of events, because each job delivers at most one signal. |
| Batch.FinishedMonotone | workerdialog.cpp:106 | jobs_finished never decreases over any sequence of events. |
| Batch.ResultFinal | workerdialog.cpp:102-143 | Once done() has been given a code, no later event changes it. |
| Batch.RejectIdleWhenAllFinished | workerdialog.cpp:116-130 | reject is a no-op once every job has finished. |
| Batch.OutcomeMeaning | workerdialog.cpp:102-143 | Code 1 means every job delivered workFinished. Code -1 means some job delivered errorSignal. Code 0 means some job had not finished. An open non-empty batch has jobs_finished < max_jobs. No other code is ever given. |
| Batch.AllDeliveredMeansSuccess | workerdialog.cpp:102-114 | In any state satisfying the invariant, a non-empty batch whose every job has delivered workFinished has ended with code 1. |
| Batch.AllFinishedMeansSuccess | workerdialog.cpp:102-114 | The converse of code 1's meaning: in every run of a batch of 1 to INT_MAX jobs, once every job has delivered workFinished the dialog has ended with 1. |
| Batch.NonEmptyCanAlwaysCancel | workerdialog.cpp:116-130 | In every run of a non-empty batch, while the dialog is open, reject() ends it with 0. |
| Batch.StepCallsOnlyUncancelled | workerdialog.cpp:172-175 | A job that one event leaves inside or past ExtractFile either was there already or was at run()'s check with cancel clear. No event clears a cancel flag. |
| Batch.ReplayCallsNothingNew | workerdialog.cpp:172-175 | A job whose cancel flag is set and that has not called ExtractFile never calls it, during any later sequence of events. |
| Batch.NoExtractionAfterHalt | workerdialog.cpp:116-143 | After the dialog has ended with 0 or -1, no job that had not called ExtractFile ever calls it. |
| Batch.CancelBetweenTakeAndCheck | workerdialog.cpp:172-173 | A cancel that lands after the pool took a job but before run() tests the flag drops that job at the test (no ExtractFile call); the job still queued never runs; the dialog ends with 0. |
| Batch.NextJobMayStartBeforeErrorIsDelivered | workerdialog.cpp:175-180 | Between a failed extraction and the delivery of its errorSignal, the pool can start the next job, which calls ExtractFile. |
| Batch.EmptyBatchNeverCloses | workerdialog.cpp:102-130 | With no job, no event ever ends the dialog: onWorkFinished never runs, and reject sees 0 == max_jobs. |
| Batch.EmptyStaysOpen | workerdialog.cpp:116-130 | An open dialog with no job and both counters 0 stays open under any sequence of events. |
| Batch.StartChecked | workerdialog.cpp:63-100 | The corrected start: a non-empty batch starts as before, and an empty one ends at once with code 1. |
| Batch.StartCheckedInv | workerdialog.cpp:63-100 | The corrected start satisfies the dialog invariant, so every property above holds for it. |
| Worker.ModeFor | workerdialog.cpp:163-170 | The thread is put in background mode exactly when the shared priority is 1. |
| Worker.IntCell.constructor | workerdialog.h:81 | The shared priority starts at the given value. |
| Worker.ExportWork.constructor | workerdialog.h:19 | A new job keeps its index, its file and the priority cell it was given, and starts with cancel == false (workerdialog.h:38). |
| Worker.ExportWork.OnCancel | workerdialog.cpp:189-192 | onCancel only sets cancel to true, so calling it again changes nothing. |
| Worker.ExportWork.Run | workerdialog.cpp:161-187 | run picks its thread mode from the priority it points at. Its outcome is RunOutcomeOf of: cancel before the check, the extraction result, and cancel after the call. |
| Worker.WorkerDialog.constructor | workerdialog.h:79-81 | A new dialog has jobs_finished == 0, priority 0, no jobs, and max_jobs not yet set. |
| Worker.WorkerDialog.SetExport | workerdialog.cpp:27-44 | max_jobs is (int) of the number of hashes. files_idx holds one FindFileByID index per hash, in hash order. |
| Worker.WorkerDialog.SetExportAll | workerdialog.cpp:46-61 | max_jobs is (int) of the file count. files_idx is exactly 0 .. n-1, in order. |
| Worker.WorkerDialog.OnSetWorkSize | workerdialog.cpp:145-149 | max_jobs becomes the given size. jobs_finished, the code, files_idx, out_dir, the jobs, the pool's queue and its thread count are unchanged. |
| Worker.WorkerDialog.DoExport | workerdialog.cpp:63-100 | One fresh, distinct, uncancelled job per entry of files_idx, each targeting MakePathString(out_dir, name) and pointing at the dialog's priority. jobs_finished is reset to 0, the pool has one thread, and every job is handed to it. |
| Worker.WorkerDialog.EmitCancelSignal | workerdialog.cpp:125 | Every connected job has cancel set. |
| Worker.WorkerDialog.OnWorkFinished | workerdialog.cpp:102-114 | The new dialog state is AfterWorkFinished of the old one. The jobs, the pool's queue, files_idx, out_dir and the thread count are unchanged. |
| Worker.WorkerDialog.Reject | workerdialog.cpp:116-130 | The new dialog state is AfterReject of the old one. When reject acts, the pool is emptied and every job is cancelled; otherwise the queue and every job's flag are unchanged. The jobs, files_idx, out_dir and the thread count are unchanged. |
| Worker.WorkerDialog.OnError | workerdialog.cpp:132-143 | The new dialog state is AfterError of the old one. The pool is emptied and every job is cancelled. The jobs, files_idx, out_dir and the thread count are unchanged. |
| Worker.WorkerDialog.OnPriorityActivated | workerdialog.cpp:156-159 | The priority changes, and every job already built sees the new value through its `int *`. |
| Worker.PriorityIsShared | workerdialog.h:39 | A priority picked after DoExport reaches a job that has not run yet: the job runs in background mode and finishes, and one of two jobs finishing leaves the dialog open. |
| HexName.IsHexName | mainwindow.cpp:532-560 | The specification of get_hex_name's answer: a "0x" prefix in either case, more than the prefix, and hex digits up to the first '.'. It has no contract of its own; GetHexName is proved against it. |
| HexName.GetHexName | mainwindow.cpp:532-560 | get_hex_name accepts exactly: a "0x" prefix in either case, more than the prefix, and hex digits in either case up to the first '.'. |
| HexName.GetSelectedHashes | mainwindow.cpp:562-583 | One hash per text, in selection order, up to the first rejected text. The count is the selection size when every text is accepted, and 0 otherwise. |
| HexName.HexFixed | mainwindow.cpp:320 | "%08x" writes exactly 8 hex digits and no '.'. |
| HexName.HashText | mainwindow.cpp:320 | "0x%08x" writes ten characters: the "0x" prefix and no '.'. |
| HexName.HashTextAccepted | mainwindow.cpp:320 | Every hash text RdbEntryToGui writes passes get_hex_name. |
| HexName.GuiSelectionAccepted | mainwindow.cpp:562-583 | A selection of items built by RdbEntryToGui converts in full. |
| HexName.IgnoresAfterDot | mainwindow.cpp:544-545 | Nothing after the first '.' is examined. |
| HexName.BoundaryCases | mainwindow.cpp:534-538 | "0x" and "1x0" are rejected, "0x." and "0X1f.anything" are accepted, and "0x1g" is rejected. |
| Wildcard.Pad | mainwindow.cpp:883-893 | Padding keeps a '*' exactly when the pattern has one, and adds at most two characters. |
| Wildcard.WildcardToRegExp | mainwindow.cpp:879-896 | The expression has a '*' exactly when the pattern has one, and is never shorter than it. |
| Wildcard.ExpandStars | mainwindow.cpp:895 | replace("*", ".*") never shortens the text, never begins with '*', and keeps a '*' exactly when the input had one. |
| Wildcard.PadShape | mainwindow.cpp:883-893 | A pattern without '*' is not padded. Otherwise padding only adds one '*' at either end, or none. |
| Wildcard.PadEnds | mainwindow.cpp:883-893 | A padded pattern that has a '*' begins and ends with one. |
| Wildcard.NoWildcardUnchanged | mainwindow.cpp:879-896 | A pattern without '*' is returned unchanged. |
| Wildcard.WildcardPadded | mainwindow.cpp:879-896 | A pattern with '*' becomes an expression that starts and ends with ".*". |
| Wildcard.EveryStarAfterDot | mainwindow.cpp:895 | Every '*' of the expression comes right after a '.'. |
| Wildcard.CollapseExpand | mainwindow.cpp:895 | Reading each ".*" back as '*' gives the text before replacement. |
| Wildcard.RegExpDetermined | mainwindow.cpp:879-896 | The expression determines the padded pattern. |
| VersionColumn.TableNamesPlain | mainwindow.cpp:263-313 | Every package name of pkg_to_version, as written and with the trailing spaces removed, begins with 'b' and holds no '/'. None is empty. |
| VersionColumn.VersionText | mainwindow.cpp:322-354 | The version text is never empty, and an entry with a package shows the package name first. |
| VersionColumn.PackagedText | mainwindow.cpp:322-327 | A package found in the table shows as the package name, " / " and its release. |
| VersionColumn.SeparatorAfterPackage | mainwindow.cpp:92-93 | In "<package> / <release>", the first " / " is the one right after the package name. |
| VersionColumn.ExternalText | mainwindow.cpp:329-354 | An entry with no package shows "External (" followed by the file's date, or by "NE" when the file is missing. mid(10) with one character chopped reads the date or "NE" back. |
| VersionColumn.ExternalOnlyWithoutPackage | mainwindow.cpp:322-333 | An entry with a package whose name does not begin with 'E' never shows as external. |
| LoadRdb.DeadFilePackages | mainwindow.cpp:374-465 | The chain itself, release by release; it has no contract of its own. The lemmas below relate it to pkg_to_version. |
| LoadRdb.ChainMapsBackAsWritten | mainwindow.cpp:263-313 | As written, every release of the chain other than 1.21 and 1.22 maps back: each package it reloads is one pkg_to_version gives that release. |
| LoadRdb.TablePackagesReloadedAsWritten | mainwindow.cpp:263-313 | As written, every package of pkg_to_version other than bin25, bin25_0, bin27 and bin27_0 is reloaded when its own release is asked for. |
| LoadRdb.ChainMapsBack | mainwindow.cpp:374-465 | With the trailing spaces removed, every package reloaded for release v is one pkg_to_version maps to v. |
| LoadRdb.TablePackagesReloaded | mainwindow.cpp:263-313 | With the trailing spaces removed, every package of pkg_to_version is reloaded when its own release is asked for. |
| LoadRdb.OtherReleasesReloadNothing | mainwindow.cpp:374-465 | A release text the chain does not name reloads nothing. |
| LoadRdb.TrailingSpaceReloadsNothing | mainwindow.cpp:374-465 | No release of the chain ends in a space, so such a text reloads nothing. |
| LoadRdb.NotMapsBackVia | mainwindow.cpp:374-465 | A reloaded package whose table entry names another release breaks the round trip. |
| LoadRdb.NotReloadedVia | mainwindow.cpp:374-465 | A table entry whose release ends in a space is never reloaded. |
| LoadRdb.Release1_21AsWritten | mainwindow.cpp:309-310 | As written, the round trip fails both ways for release 1.21 and bin25. |
| LoadRdb.Release1_22AsWritten | mainwindow.cpp:311-312 | As written, the round trip fails both ways for release 1.22 and bin27. |
| LoadRdb.Release1_15FourSuffixes | mainwindow.cpp:434-437 | Release 1.15 reloads four suffixes, from two packages. |
| LoadRdb.StripExtension | mainwindow.cpp:475-478 | rdb_name is a prefix of the file name. It is the whole name when there is no '.', and otherwise ends right before the last '.'. |
| LoadRdb.StripExtensionOf | mainwindow.cpp:475-478 | Stripping "<base>.<ext>", where ext has no '.', gives exactly base. |
| ItemOrder.ToLongLong | mainwindow.cpp:54 | The value read always lies in the long long range. |
| ItemOrder.Decimal | mainwindow.cpp:358 | arg() writes a non-empty string of decimal digits. |
| ItemOrder.DecimalValue | mainwindow.cpp:358 | The digits arg() writes read back as the number. |
| ItemOrder.SizeText | mainwindow.cpp:358 | The size text, `"%1 bytes"` of the size; it has no contract of its own. SizeKeyOfSizeText states what sorting reads from it. |
| ItemOrder.SizeKey | mainwindow.cpp:54 | The key the size column sorts by always lies in the long long range. |
| ItemOrder.SizeKeyOfSizeText | mainwindow.cpp:54 | The size column sorts "<n> bytes" by n itself. |
| ItemOrder.VersionLess | mainwindow.cpp:56-100 | The version-column comparison with the comparison of two external stamps as a parameter; it has no contract of its own. ExternalLast, ReleaseTextsCompare and the sort lemmas state its properties. |
| ItemOrder.ItemLessAsWritten | mainwindow.cpp:45-103 | operator< exactly as written; it has no contract of its own. AgreesAsWritten and the AsWritten lemmas state its properties. |
| ItemOrder.AgreesAsWritten | mainwindow.cpp:80-83 | operator< as written and the corrected comparison agree on every pair of texts except two external items that are both missing. So every property stated below of the corrected order holds of the program's order on all other pairs. |
| ItemOrder.SizeOrderIsNumeric | mainwindow.cpp:49-55 | Two size texts compare exactly as their sizes do. |
| ItemOrder.NineBeforeTen | mainwindow.cpp:49-55 | "9 bytes" sorts before "10 bytes", although "10 bytes" is the smaller text. |
| ItemOrder.ExternalLast | mainwindow.cpp:62-71 | An item that is not external sorts before every external item, and never after one. |
| ItemOrder.MissingLessThanItselfAsWritten | mainwindow.cpp:80-81 | As written, "External (NE)" is less than itself. |
| ItemOrder.ItemLessIrreflexive | mainwindow.cpp:45-103 | With two "NE" items equivalent, no item is less than itself, given irreflexive date and text orders. |
| ItemOrder.ItemLessAsymmetric | mainwindow.cpp:45-103 | The corrected comparison never has both a < b and b < a, given asymmetric date and text orders. |
| ItemOrder.ReleaseTextsCompare | mainwindow.cpp:90-98 | Two texts "<package> / <release>" compare as their releases do, as text. |
| ItemOrder.PackagesSortByRelease | mainwindow.cpp:90-98 | Two packaged files sort by the releases their table gives them. |
| ItemOrder.ExternalsSortByDate | mainwindow.cpp:72-89 | In the corrected order, two external files sort by date. A missing one sorts before a present one and never after any, another missing one included. |
| ItemOrder.ExternalsSortByDateAsWritten | mainwindow.cpp:72-89 | In operator< as written, two external files sort by date, and a missing one on the left is less than any external file, a missing one included. |
| QtString.LexLessAsymmetric | mainwindow.cpp:97 | QString's < never holds both ways. |
| QtString.LexLessAfterCommonPrefix | mainwindow.cpp:97 | A common prefix does not change QString's <. |
| Image.Converted | mainwindow.cpp:1010-1023 | The converted image has the texture's length; its bytes are ConvertedByte, about which PixelCopied and the lemmas after it state what each byte is. |
| Image.Fill | mainwindow.cpp:1003 | Every pixel holds the four bytes of the fill colour. |
| Image.CopyRow | mainwindow.cpp:1010-1023 | One scan line is converted, and no byte outside it changes. |
| Image.SetImage | mainwindow.cpp:996-1027 | A new image whose every byte is the converted texture byte. |
| Image.RowBytesIsProduct | mainwindow.cpp:1005-1008 | height rows of 4 * width bytes fill exactly the 4 * width * height bytes of the texture. |
| Image.PixelCopied | mainwindow.cpp:1012-1019 | Bytes 0-2 of each pixel are the texture's. Byte 3 is the texture's alpha with alpha, and 0xFF without. |
| Image.AlphaKept | mainwindow.cpp:1016-1017 | With alpha, the image is the texture byte for byte. |
| Image.OpaqueWithoutAlpha | mainwindow.cpp:1018-1019 | Without alpha, every pixel is opaque, and converting again changes nothing. |
| Image.FillNeverSurvives | mainwindow.cpp:1003-1023 | A pixel shows magenta only where the texture itself has magenta's colour bytes. |
| Clipboard.Join | mainwindow.cpp:1131-1139 | The joined text of a non-empty selection begins with the first item's text. |
| Clipboard.JoinSnoc | mainwindow.cpp:1135-1138 | One more item adds a '\n' and its text. |
| Clipboard.ClipboardText | mainwindow.cpp:1131-1145 | The text is the column texts in selection order, with '\n' between each two. The clipboard is written exactly when that text is not empty. |
| Clipboard.JoinEmpty | mainwindow.cpp:1141 | The text is empty exactly when there is no selection, or one item whose text is empty. |
| Clipboard.SplitJoin | mainwindow.cpp:1131-1139 | Texts without a line break are read back from the clipboard text, one for one. |

## Left out

- Threads are left out: `QThreadPool`, `QMutexLocker` and `waitForDone`. The pool is the list of jobs not yet started plus its thread count. Signal delivery is an event of its own, and the dialog's slots and the user act only while `exec()` runs.
- `SetThreadPriority` is left out. Only the mode it is given is kept (`ModeFor`).
- `RdbFile`, `G1tFile`, `Utils` and `QFileInfo` are not part of this model. Their results are parameters: the extraction result, `FindFileByID`, `GetFileName`, `MakePathString`, `GetUnsigned`, the external file's date. A `QDate` comparison is an abstract order on date texts.
- The user interface is left out: labels, the progress bar, menus, the search timer, the preview frame, settings, and the `QProcess` restart in `deadFilesTrigger`.
- `PreviewG1T` is left out. Its scaling uses floating point.
- `doSearch` is left out. Its matching is Qt's regular-expression engine; only the expression `WildcardToRegExp` builds is modelled.
- The single-file path of `on_actionExtract_selection_triggered` is left out, including its assert at mainwindow.cpp:687, which is written inverted.
- The `exit(-1)` in `LoadRdb` (mainwindow.cpp:467-471), taken when a release has no dead files, is left out. It is process termination.
- The column type text (mainwindow.cpp:359) and the name text are not modelled.
- `pkg_to_version` is written as four part maps joined by map union. `PkgToVersionAsWritten` joins them as the table at mainwindow.cpp:263-313 reads, with "1.21 " and "1.22 "; `PkgToVersionCorrected` joins them with those two trailing spaces removed.
- The jobs of the `WorkerDialog` class and the jobs of the `Batch` state machine are two models of the same thing: no contract ties `works`, `pending` and the `cancel` flags to `Batch`'s job list, and `DoExport` is not tied to `Batch.Start`. Only the dialog's counters, priority and code are tied, through `View`.
- `ExtractMultiple` only reports the code (mainwindow.cpp:624-637); that reporting is not modelled, and the codes are the constants of `Batch`.
- Batch.StartInv: holds only for up to INT_MAX jobs, because `(int)hashes.size()` of a larger batch does not equal its job count.
- Worker.WorkerDialog.OnWorkFinished: requires jobs_finished < INT_MAX, because a further `++` would be signed overflow in C++.
- Worker.WorkerDialog.OnWorkFinished: requires max_jobs to have been set first. The field has no initialiser (workerdialog.h:80).
- HexName.HasHexPrefix: `Utils::BeginsWith` is not part of this model; its third argument `false` is taken to mean that case is ignored.
- HexName.GetHexName: returns only whether the text is accepted; the value `Utils::GetUnsigned` stores is a parameter of `GetSelectedHashes`.
- ItemOrder.ToLongLong: does not skip the surrounding whitespace `QString::toLongLong` allows. The size texts compared never have any.
- Image.SetImage: works on the texture as bytes. It does not model the `uint32_t` product `y*width` wrapping for textures of 2^32 pixels or more. It also does not model the QImage formats, which only decide whether alpha is shown.
- Image.Fill: models `QImage::fill`, a library call, as a loop over the pixels.

## Findings

| source | as written | input that shows it | evidently intended | confidence | as-written member | corrected member |
|---|---|---|---|---|---|---|
| workerdialog.cpp:102-130 | An empty batch sets max_jobs to 0. No job ever signals, and reject() compares 0 == 0 and does nothing, so `exec()` never returns. | "Extract all" on an archive with no files: setExportAll with a file count of 0. | An empty batch ends at once with code 1. | not executed | Batch.EmptyBatchNeverCloses | Batch.StartChecked |
| mainwindow.cpp:309-312 | `pkg_to_version` gives bin25, bin25_0, bin27 and bin27_0 the releases "1.21 " and "1.22 ", with a trailing space. So the table and the `LoadRdb` chain disagree on them. | bin_file ".bin25": the chain reloads bin25 for "1.21", but the table maps it to "1.21 ". | "1.21" and "1.22". | not executed | LoadRdb.Release1_21AsWritten | LoadRdb.ChainMapsBack |
| mainwindow.cpp:80-81 | Between two external items, a left "NE" is less even when the right one is "NE" too. The comparison is then not irreflexive, which sorting requires. | Two items whose external files are both missing: each "External (NE)" is less than the other. | Two "NE" items are equivalent. | not executed | ItemOrder.MissingLessThanItselfAsWritten | ItemOrder.ItemLessIrreflexive |
