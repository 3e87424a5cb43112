# JpegQuality, modelled in Dafny

JpegQuality is a small Windows Forms tool. The user drops JPEG files on its window, or
names them on the command line. A background worker then writes a re-encoded copy of each
file next to the original, at the quality chosen in the tool bar. The copy of
`C:\img\x.JPG` at quality 60 is `C:\img\x-60.JPG`. This project models the logic of
`JpegQuality.cs` and proves what it does:

- `Strings`: the .NET string operations the program relies on. These are ASCII case folding
  as `RegexOptions.IgnoreCase` applies it to `\.jpe?g`, suffix tests, ordinal
  `String.Replace(x, "")`, and `Int32.ToString()` for the quality range.
- `FileValidator`: which dropped lists are accepted. The regular expression `\.jpe?g$` is
  stated by its meaning as a search. It includes the .NET rule that `$` also matches just
  before a final `'\n'`. The program's loop is modelled as a suffix check that ignores one
  final newline, and the two are proved to decide the same thing.
- `PathPolicy`: the destination expression of line 135. It splits a path at its last `\`
  or `/`, and takes the extension from the file name's last `.`. Every occurrence of the
  extension is removed, then `-`, the quality and the extension are appended.
- `BatchProcessor`: `ProcessImages` and `ProcessImage` as a method with a loop over a file
  system modelled as a map from path to bytes. GDI+ decoding and encoding are function
  values that may fail. Cancellation is an oracle asked once per step. The progress reports
  are returned as a sequence. The method is proved equal to a recursive specification
  function, `Batch`. A ghost log of accesses (existence check, read, write), each tagged
  with the index of its file, lets the lemmas say which files a run touched. The log is a
  device of the specification; the program keeps no such record.
- `BatchProperties`: the lemmas about `Batch`. The loop's control is proved once for any
  loop body. What it writes is proved for any "tidy" body: each access belongs to its own
  file, and a step writes exactly its file's destination, exactly when it succeeds. The
  body of `ProcessImages` is then shown to be tidy.
- `JpegQualityForm`: the event handlers. `DragOver` sets the cursor, `DragDrop` starts a
  run, `OnActivated` handles the startup arguments, and `DoWork` runs the batch. They share
  a `Worker` class holding the two parts of the BackgroundWorker that the handlers observe:
  `IsBusy` and the argument of the run.

Where the code and a plain reading of the design disagree, the model follows the code:

- A file name without an extension makes `String.Replace` throw `ArgumentException`
  before anything is written. This is a fourth way for a run to fail (`EmptyExtension`),
  next to a missing file, a failed decode and a failed save. Only the startup path can
  reach it, since a drop accepts `.jpg`/`.jpeg` names only.
- A cancelled run reports how many files it completed and leaves them written. The model
  states `Cancelled(k)`; the code itself only returns from the loop.
- A submission while the worker is busy is ignored. On a drop it is ignored because the
  check includes `!Worker.IsBusy`. On the startup path `RunWorkerAsync` throws and the
  handler catches it.

## Model

| member | source | states |
|---|---|---|
| Strings.AsciiLowerLetters | RedCell.App.Graphics.JpegQuality/JpegQuality.cs:88 | under `IgnoreCase` a character matches a lower-case pattern letter exactly when it is that letter or its upper-case form |
| Strings.RemoveAll | RedCell.App.Graphics.JpegQuality/JpegQuality.cs:135 | `Replace(pat, "")` never makes a string longer |
| Strings.RemoveAllLength | RedCell.App.Graphics.JpegQuality/JpegQuality.cs:135 | every removal shortens the name by exactly the length of the extension |
| Strings.RemoveAllCount | RedCell.App.Graphics.JpegQuality/JpegQuality.cs:135 | every removal deletes exactly the characters of one copy of the extension, counted character by character |
| Strings.RemoveAllOnlySuffix | RedCell.App.Graphics.JpegQuality/JpegQuality.cs:135 | when the extension occurs in the name only as its suffix, removal leaves exactly the stem |
| Strings.NatToString | RedCell.App.Graphics.JpegQuality/JpegQuality.cs:135 | the quality's decimal text is non-empty, all digits, with no leading zero |
| Strings.DigitsValueOfNatToString | RedCell.App.Graphics.JpegQuality/JpegQuality.cs:135 | reading the decimal text back gives the quality |
| Strings.NatToStringInjective | RedCell.App.Graphics.JpegQuality/JpegQuality.cs:135 | different qualities have different decimal texts |
| Strings.NatToStringHasNo | RedCell.App.Graphics.JpegQuality/JpegQuality.cs:135 | the quality's text holds no '.', '\\' or '/' (no non-digit at all) |
| FileValidator.AnchorAtChomp | RedCell.App.Graphics.JpegQuality/JpegQuality.cs:88 | `$` accepts exactly two positions: the end of the path and the end of the path less one final newline |
| FileValidator.SuffixGivesMatch | RedCell.App.Graphics.JpegQuality/JpegQuality.cs:88 | a ".jpg"/".jpeg" suffix in any case gives a match of `\.jpe?g` that `$` accepts |
| FileValidator.MatchGivesSuffix | RedCell.App.Graphics.JpegQuality/JpegQuality.cs:88 | a match that `$` accepts means the path ends (before one final newline) in ".jpg" or ".jpeg" in any case |
| FileValidator.SuffixCheckIsPattern | RedCell.App.Graphics.JpegQuality/JpegQuality.cs:88 | the suffix check holds if and only if `Regex.IsMatch(p, @"\.jpe?g$", IgnoreCase)` |
| FileValidator.HasJpegExtension | RedCell.App.Graphics.JpegQuality/JpegQuality.cs:88 | the suffix check the model decides a path with; `SuffixCheckIsPattern` proves it equal to the pattern |
| FileValidator.PatternMatches | RedCell.App.Graphics.JpegQuality/JpegQuality.cs:88 | `Regex.IsMatch(p, @"\.jpe?g$", IgnoreCase)` as a search for a match the anchor accepts; its properties are stated by the lemmas around it |
| FileValidator.ScanBatch | RedCell.App.Graphics.JpegQuality/JpegQuality.cs:86-89 | the flag the loop leaves is exactly acceptance: worker idle and every path matches |
| FileValidator.Accept | RedCell.App.Graphics.JpegQuality/JpegQuality.cs:86-89 | the loop's verdict as a definition: the worker is idle and every path matches; `ScanBatch` computes it |
| FileValidator.AcceptIsSuffixCheck | RedCell.App.Graphics.JpegQuality/JpegQuality.cs:86-89 | a list is accepted if and only if the worker is idle and every path ends in ".jpg" or ".jpeg" in any letter case |
| FileValidator.AcceptByMembers | RedCell.App.Graphics.JpegQuality/JpegQuality.cs:86-89 | acceptance depends only on which paths are present: idle and every member matches |
| FileValidator.OneBadPathRejects | RedCell.App.Graphics.JpegQuality/JpegQuality.cs:87-89 | one path that does not match rejects the whole list |
| FileValidator.EmptyListAccepted | RedCell.App.Graphics.JpegQuality/JpegQuality.cs:85-86 | the empty list is accepted exactly when the worker is idle |
| FileValidator.AcceptConcat | RedCell.App.Graphics.JpegQuality/JpegQuality.cs:87-89 | a concatenation is accepted exactly when both parts are |
| FileValidator.AcceptsJpegLists | RedCell.App.Graphics.JpegQuality/JpegQuality.cs:88 | "a.jpg" with "B.JPEG" is accepted when idle, and so is the empty list |
| FileValidator.RejectsForeignOrBusy | RedCell.App.Graphics.JpegQuality/JpegQuality.cs:86-89 | one ".png" rejects its list, and a busy worker rejects every list |
| FileValidator.FinalNewline | RedCell.App.Graphics.JpegQuality/JpegQuality.cs:88 | "a.jpg\n" matches, because `$` matches before a final newline |
| FileValidator.TwoFinalNewlines | RedCell.App.Graphics.JpegQuality/JpegQuality.cs:88 | "a.jpg\n\n" does not match |
| PathPolicy.NameStart | RedCell.App.Graphics.JpegQuality/JpegQuality.cs:135 | the file name starts within the path |
| PathPolicy.NameStartFacts | RedCell.App.Graphics.JpegQuality/JpegQuality.cs:135 | `FileInfo.Name` starts just after a separator, or at the start, and contains no separator |
| PathPolicy.FileName | RedCell.App.Graphics.JpegQuality/JpegQuality.cs:135 | `FileInfo.Name`, the part after the last separator; stated by `NameStartFacts` and `JoinSplit` |
| PathPolicy.DirectoryName | RedCell.App.Graphics.JpegQuality/JpegQuality.cs:135 | `FileInfo.DirectoryName`, the part before the last separator; stated by `JoinSplit` |
| PathPolicy.JoinSplit | RedCell.App.Graphics.JpegQuality/JpegQuality.cs:135 | joining a directory and a name with no separator with `\` splits back into that directory and that name |
| PathPolicy.Extension | RedCell.App.Graphics.JpegQuality/JpegQuality.cs:135 | `FileInfo.Extension` is no longer than the name |
| PathPolicy.ExtensionEmpty | RedCell.App.Graphics.JpegQuality/JpegQuality.cs:135 | the extension is empty exactly when the name has no '.' |
| PathPolicy.ExtensionDot | RedCell.App.Graphics.JpegQuality/JpegQuality.cs:135 | a non-empty extension starts with '.' and holds exactly one '.' |
| PathPolicy.ExtensionSuffix | RedCell.App.Graphics.JpegQuality/JpegQuality.cs:135 | the extension is a suffix of the name |
| PathPolicy.ExtensionOfSuffix | RedCell.App.Graphics.JpegQuality/JpegQuality.cs:135 | a name ending in a one-dot suffix that starts with '.' has that suffix as its extension |
| PathPolicy.DestinationNameNoSeparator | RedCell.App.Graphics.JpegQuality/JpegQuality.cs:135 | the copy's file name contains no separator |
| PathPolicy.DestinationName | RedCell.App.Graphics.JpegQuality/JpegQuality.cs:135 | the copy's file name; stated by `DestinationNameNoSeparator`, `DestinationNameDots`, `DestinationNameIsNew` and `DestinationOfPlainName` |
| PathPolicy.Destination | RedCell.App.Graphics.JpegQuality/JpegQuality.cs:135 | the copy's path; stated by `DestinationParts`, `DestinationShape`, `DestinationIsNotSource` and `DestinationInjective` |
| PathPolicy.DestinationParts | RedCell.App.Graphics.JpegQuality/JpegQuality.cs:135 | the copy lies in the source's directory, and its file name is the removed name, "-", the quality and the extension |
| PathPolicy.DestinationSuffix | RedCell.App.Graphics.JpegQuality/JpegQuality.cs:135 | the copy ends with "-" + quality + extension, keeping the extension's letter case |
| PathPolicy.DestinationShape | RedCell.App.Graphics.JpegQuality/JpegQuality.cs:135 | the directory, the file name and the suffix of the copy together |
| PathPolicy.DestinationOfPlainName | RedCell.App.Graphics.JpegQuality/JpegQuality.cs:135 | when the extension occurs only as the name's suffix, the copy's name is stem + "-" + quality + extension |
| PathPolicy.DoubledExtensionExample | RedCell.App.Graphics.JpegQuality/JpegQuality.cs:135 | "a.jpg.jpg" at 60 becomes "a-60.jpg": every occurrence goes |
| PathPolicy.SharedDestinationExample | RedCell.App.Graphics.JpegQuality/JpegQuality.cs:135 | "a.jpg" and "a.jpg.jpg" share the copy "a-60.jpg" |
| PathPolicy.DirectoryExample | RedCell.App.Graphics.JpegQuality/JpegQuality.cs:135 | `C:\img\x.JPG` at 60 becomes `C:\img\x-60.JPG` |
| PathPolicy.DestinationKeepsExtension | RedCell.App.Graphics.JpegQuality/JpegQuality.cs:135 | the copy has the source's extension, so its destination is defined again |
| PathPolicy.DestinationNameDots | RedCell.App.Graphics.JpegQuality/JpegQuality.cs:135 | the copy's name has the source's dots, less one per removed occurrence, plus the extension's one |
| PathPolicy.DestinationNameIsNew | RedCell.App.Graphics.JpegQuality/JpegQuality.cs:135 | the copy's file name differs from the source's |
| PathPolicy.DestinationIsNotSource | RedCell.App.Graphics.JpegQuality/JpegQuality.cs:135 | the copy is never written over its source |
| PathPolicy.DestinationInjective | RedCell.App.Graphics.JpegQuality/JpegQuality.cs:135 | for one source, different qualities give different destinations |
| BatchProcessor.ProcessImage | RedCell.App.Graphics.JpegQuality/JpegQuality.cs:146-155 | the source is read first; it succeeds exactly when both the decode and the save succeed, and then only the destination changes, to the bytes the encoder produced; a failed decode stops with DecodeFailed, any other failure is SaveFailed |
| BatchProcessor.ProcessImageAccesses | RedCell.App.Graphics.JpegQuality/JpegQuality.cs:146-155 | every access is the file's own, the only write is at the destination, and it writes exactly when it succeeds (which `ProcessImage` ties to both codec calls succeeding) |
| BatchProcessor.ProcessFile | RedCell.App.Graphics.JpegQuality/JpegQuality.cs:131-136 | the loop body after the cancellation check: the existence check, the destination and ProcessImage, equal to `Step` |
| BatchProcessor.Step | RedCell.App.Graphics.JpegQuality/JpegQuality.cs:131-136 | the loop body after the cancellation check; `StepIsTidy`, `LoopFinds` and `FailedRunCause` state what it does |
| BatchProcessor.Target | RedCell.App.Graphics.JpegQuality/JpegQuality.cs:135 | the destination the step writes to, none when the file name has no extension; used by `BatchLog` and `OnlyDestinationsChange` |
| BatchProcessor.ProcessImages | RedCell.App.Graphics.JpegQuality/JpegQuality.cs:121-139 | the method's outcome, file system and reports are those of `Batch` |
| BatchProcessor.RunFrom | RedCell.App.Graphics.JpegQuality/JpegQuality.cs:126-138 | the loop from step i on, for any body; stated by the `RunFrom` lemmas of `BatchProperties` |
| BatchProcessor.Batch | RedCell.App.Graphics.JpegQuality/JpegQuality.cs:121-139 | the whole run; `ProcessImages` computes it and the `BatchProperties` lemmas state what it does |
| BatchProperties.StepIsTidy | RedCell.App.Graphics.JpegQuality/JpegQuality.cs:131-136 | each step touches only its own file, and writes only its destination, exactly on success |
| BatchProperties.LoopIsTidy | RedCell.App.Graphics.JpegQuality/JpegQuality.cs:131-136 | the loop body of ProcessImages is tidy for every file system, file and index |
| BatchProperties.LoopFinds | RedCell.App.Graphics.JpegQuality/JpegQuality.cs:131-133 | a step of ProcessImages goes past its file only when the file exists, and leaves it in place |
| BatchProperties.RunFromReports | RedCell.App.Graphics.JpegQuality/JpegQuality.cs:137 | from step i, the reports are (i+1, n), (i+2, n), ... up to the stop index, which is at most n |
| BatchProperties.RunFromStops | RedCell.App.Graphics.JpegQuality/JpegQuality.cs:128-133 | no cancellation was pending before the stop; a cancelled run stopped where it was pending; a failed run's step fails again on the final state |
| BatchProperties.RunFromPending | RedCell.App.Graphics.JpegQuality/JpegQuality.cs:128-129 | cancellation pending at k stops the run at k at the latest, as Cancelled(k) if it gets there |
| BatchProperties.RunFromIndices | RedCell.App.Graphics.JpegQuality/JpegQuality.cs:126-138 | every access belongs to a file up to the stop index, and to the stop index only on failure |
| BatchProperties.RunFromWrites | RedCell.App.Graphics.JpegQuality/JpegQuality.cs:135-136 | every write is at the destination of a file before the stop index |
| BatchProperties.RunFromWritten | RedCell.App.Graphics.JpegQuality/JpegQuality.cs:135-137 | every file before the stop index was written at its destination |
| BatchProperties.WrittenByStep | RedCell.App.Graphics.JpegQuality/JpegQuality.cs:135-136 | a tidy step wrote exactly its target when it succeeds, and nothing when it stops |
| BatchProperties.RunFromFrame | RedCell.App.Graphics.JpegQuality/JpegQuality.cs:126-138 | a path the run did not write was there before and keeps its content |
| BatchProperties.RunFromKeys | RedCell.App.Graphics.JpegQuality/JpegQuality.cs:126-138 | the paths at the end are exactly the paths at the start and the paths written |
| BatchProperties.RunFromFound | RedCell.App.Graphics.JpegQuality/JpegQuality.cs:126-138 | for a body that finds its files, every file the run went past is present at the end |
| BatchProperties.BatchLog | RedCell.App.Graphics.JpegQuality/JpegQuality.cs:121-139 | over the whole run: accesses stop at the stop index, writes are destinations of earlier files, and every earlier file was written |
| BatchProperties.BatchFrame | RedCell.App.Graphics.JpegQuality/JpegQuality.cs:121-139 | over the whole run: no path vanishes, unwritten paths keep their content, and the new paths are the written ones |
| BatchProperties.ProgressReports | RedCell.App.Graphics.JpegQuality/JpegQuality.cs:123-124 | the reports are (0, n), (1, n), ..., (m, n) with m the stop index and at most n; all n files were done exactly when there are n+1 reports |
| BatchProperties.CancelledRun | RedCell.App.Graphics.JpegQuality/JpegQuality.cs:126-129 | Cancelled(k): cancellation was pending at k and at no earlier step, files 0..k-1 were written, no access belongs to file k or later, and k completions were reported |
| BatchProperties.PendingCancellation | RedCell.App.Graphics.JpegQuality/JpegQuality.cs:126-129 | cancellation pending at k ends the run by k, and files k and later are never checked, read or written |
| BatchProperties.FailedRun | RedCell.App.Graphics.JpegQuality/JpegQuality.cs:131-133 | Failed(e, i): file i's step fails with e, FileNotFound exactly when file i is missing, and no completion is reported for it |
| BatchProperties.FailedRunCause | RedCell.App.Graphics.JpegQuality/JpegQuality.cs:131-155 | Failed(e, i) names its cause exactly: FileNotFound iff file i is missing, EmptyExtension iff its name has no extension, DecodeFailed iff the decoder refuses its content, SaveFailed iff the decode succeeded |
| BatchProperties.ExistBeforeStop | RedCell.App.Graphics.JpegQuality/JpegQuality.cs:131-133 | every file before the stop index exists at the end of the run |
| BatchProperties.MissingFileFails | RedCell.App.Graphics.JpegQuality/JpegQuality.cs:131-133 | a missing file that no copy would create stops the run at its index at the latest, and a run reaching it uncancelled fails there with FileNotFound |
| BatchProperties.FailedRunLeaves | RedCell.App.Graphics.JpegQuality/JpegQuality.cs:131-136 | after Failed(e, i): the copies of files 0..i-1 are in place, file i wrote nothing, and no later file was touched |
| BatchProperties.CompletedRun | RedCell.App.Graphics.JpegQuality/JpegQuality.cs:126-139 | a completed run met no pending cancellation and every file's copy is in place |
| BatchProperties.OnlyDestinationsChange | RedCell.App.Graphics.JpegQuality/JpegQuality.cs:135-136 | no path is removed, every write is a processed file's destination and never the file itself, and every other path keeps its content |
| JpegQualityForm.StartupFiles | RedCell.App.Graphics.JpegQuality/JpegQuality.cs:54-55 | the arguments after the executable's path, in their order |
| JpegQualityForm.DroppedFiles | RedCell.App.Graphics.JpegQuality/JpegQuality.cs:85 | the dropped paths, or none when the data holds no file list (the same expression is line 107); used by `DragOver` and `DragDrop` |
| JpegQualityForm.Effect | RedCell.App.Graphics.JpegQuality/JpegQuality.cs:113 | the cursor as a definition: Copy exactly when the drop is accepted; `DragOver` computes it |
| JpegQualityForm.Worker.constructor | RedCell.App.Graphics.JpegQuality/JpegQuality.cs:29 | a new worker is idle |
| JpegQualityForm.Worker.RunWorkerAsync | RedCell.App.Graphics.JpegQuality/JpegQuality.cs:92 | an idle worker becomes busy with the given files; a busy one throws and nothing changes |
| JpegQualityForm.Worker.DoWork | RedCell.App.Graphics.JpegQuality/JpegQuality.cs:172-175 | the run is `Batch` on the worker's argument, and the worker is idle afterwards |
| JpegQualityForm.JpegQuality.constructor | RedCell.App.Graphics.JpegQuality/JpegQuality.cs:25-29 | the form starts with an idle worker |
| JpegQualityForm.JpegQuality.DragOver | RedCell.App.Graphics.JpegQuality/JpegQuality.cs:105-114 | the cursor is Copy exactly when the worker is idle and every dropped path ends in ".jpg" or ".jpeg" in any case |
| JpegQualityForm.JpegQuality.DragDrop | RedCell.App.Graphics.JpegQuality/JpegQuality.cs:81-98 | a run starts exactly when DragOver would show Copy, on the dropped paths in their order; otherwise nothing changes |
| JpegQualityForm.JpegQuality.OnActivated | RedCell.App.Graphics.JpegQuality/JpegQuality.cs:46-58 | with more than one argument and an idle worker, a run starts on the arguments after the first, unchecked; otherwise nothing changes |
| JpegQualityForm.EffectIgnoresOrder | RedCell.App.Graphics.JpegQuality/JpegQuality.cs:107-113 | two drops holding the same paths with the same multiplicities, in any order, show the same cursor |
| JpegQualityForm.StartupSkipsCheck | RedCell.App.Graphics.JpegQuality/JpegQuality.cs:51-56 | the file list that `JpegQuality.exe notes.txt` hands to the worker is one a drop would refuse |
| JpegQualityForm.StartupStartsRefusedFiles | RedCell.App.Graphics.JpegQuality/JpegQuality.cs:46-58 | on a fresh form, a drag of "notes.txt" shows no Copy cursor, yet `OnActivated` with `JpegQuality.exe notes.txt` starts the worker on exactly that file |

## Left out

- The `Quality` registry property is left out. So are the constructor's default of 60 and
  the tool-bar `int.Parse` (lines 31-34, 70-74, 164). The quality is a parameter in 0..100.
  The code reads it from the registry again at line 135 and at line 152. The model uses one
  value for both, so it does not capture a setting changed during a run.
- Threading is left out: `BackgroundWorker` scheduling, `ReportProgress` marshalling,
  `Invoke`, `UpdateProgressBar` and `CancelAsync` when the form closes. Cancellation is an
  oracle asked before each file. The reports are returned, not delivered to the UI.
- `JpegQualityForm.Worker.RunWorkerAsync` starts no thread. `DoWork` is the whole run,
  executed when the model calls it.
- GDI+ is not modelled: `Bitmap.FromFile`, the encoder lookup, `EncoderParameters` and
  `Save`. They are function values that may fail.
- `BatchProcessor.ProcessImage`: a failed `Save` is assumed to leave the destination
  unchanged. GDI+ may leave a partial file behind, and the model does not capture that.
- The `MessageBox` display and the `try`/`catch` around the handlers are left out. A
  caught exception ends the handler with nothing else changed; `started` is false in the
  model.
- `Close()` after the startup arguments start a run (line 57) is left out. So is its
  interaction with `OnFormClosing`'s `CancelAsync`. It depends on the form's lifecycle.
- `JpegQuality.Designer.cs` is left out: control layout and the quality list. The
  declaration and event wiring of `Worker` are not shown there. So the RunWorkerCompleted
  handling is unknown, and the model returns the run's outcome instead.
- `BatchProperties.OnlyDestinationsChange` and `BatchProperties.BatchFrame` compare paths
  ordinally, as exact map keys. Windows compares paths without case, so an existing
  `C:\A-60.jpg` is the file the copy of `C:\a.jpg` at 60 overwrites; the model treats the
  two as different paths and does not capture that aliasing.
- Path handling is limited to the split at the last `\` or `/`. The model takes every path
  as normalised, so it leaves out the following: `FileInfo.FullName` normalisation, a
  directory that is a drive root (where `DirectoryName` keeps its separator), and the
  stripping of trailing dots and spaces.
- Beyond `\.jpe?g$` with `IgnoreCase`, the .NET regular-expression engine is not modelled.
  The case folding covers the ASCII letters of the pattern only. `$` is modelled with its
  final-newline rule.
- `Environment.GetCommandLineArgs()` is a parameter of `OnActivated`. The dropped data is a
  parameter of `DragOver` and `DragDrop`: `None` when it holds no `string[]`.
