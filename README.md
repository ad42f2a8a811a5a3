# PaperlessCopier, modelled in Dafny

PaperlessCopier is a one-shot console program. It copies new office documents from a
source directory tree into the consume folder of a Paperless document server. One run
does the following:

- checks its arguments: a source folder, and an optional destination folder;
- reads a watermark timestamp from the sentinel file `.PaperlessImportTimestamp` in the
  source root;
- lists every file below the source root;
- keeps the files last accessed strictly after the watermark whose extension is `.pdf`,
  `.docx` or `.xlsx`, ignoring case;
- copies each kept file to the same relative path below the destination. A file that
  already exists there is skipped. A copy that throws is counted as an error, and the
  loop goes on;
- writes the current time as the new watermark;
- trims the destination bottom-up. Each directory loses its `.DS_Store` file, and a
  directory left with nothing in it is deleted.

The model follows `Program.cs`, one module per concern:

| file | module | models |
|---|---|---|
| `common.dfy` | `Common` | `Option`, ordinal case-insensitive comparison |
| `paths.dfy` | `Paths` | `MakePathRelativeTo`, `Path.Combine`, `FileSystemInfo.Extension`, splitting a relative path into segments |
| `timestamps.dfy` | `Timestamps` | `DateTime`, the `dd-MMM-yyyy HH:mm:ss` format and `TryParseExact`, `ReadLastImportDate`, the timestamp write |
| `filter.dfy` | `Filter` | the candidate filter |
| `dest_tree.dfy` | `DestTree` | the destination tree: `Exists`, `Directory.CreateDirectory`, `File.Copy` |
| `copy_engine.dfy` | `CopyEngine` | the copy loop and its three counters |
| `trimmer.dfy` | `Trimmer` | `TrimEmptyDirs` |
| `importer.dfy` | `Importer` | `Main` and the program's static fields |

Each part keeps the form it has in the source:

- **Pure parts are functions.** The filter, the path arithmetic and the timestamp
  format and parse are functions, with lemmas about them.
- **The copy loop is a method.** `CopyEngine.CopyCandidates` is a `while` loop, proved
  against the specification function `CopyEngine.Run`, a left fold of
  `CopyEngine.CopyOne` over the candidates.
- **The trim pass is a recursive method.** `Trimmer.TrimEmptyDirs` visits the
  subdirectories in a loop and is proved against the function `Trimmer.Trim`.
- **The static fields are a class.** `Importer.Program` holds them, and its methods
  `Start`, `Proceed`, `ReadLastImportDate` and `ScanForDocuments` update them as `Main`
  does. They are proved equal to the function `Importer.Import`, which describes one
  whole run.

The run is the program as written, including its two defects (see "## Findings"):

- the timestamp is formatted under the process's current culture, an input of the run
  (`Environment.culture`);
- the trim pass starts at the destination root, so a destination left empty is deleted
  and is missing from the directories the next run finds.

The lemmas about consecutive runs state when the next run still works: when the current
culture writes the month and the time separator as the invariant culture does, and when
the trim pass did not delete the root. Separate lemmas show what happens otherwise. The
corrected writer and the corrected trim are defined and proved on their own in
`Timestamps` and `Trimmer`.

The filesystem's failures are explicit inputs:

- a map from source file to `Attempt(createFails, copyFails)`;
- the sets of directories whose deletion, or whose `.DS_Store` deletion, throws.

A copied file holds the name of the source file it came from. This makes "a file is
never overwritten" observable in the model.

Timestamp order: the code writes the watermark at the end of `ScanForDcuments`
(Program.cs:159), before the trim pass (Program.cs:41). A run whose trim pass aborts on
a `.DS_Store` it cannot delete (Program.cs:66) has therefore already advanced the
watermark. The model does the same.

## Model

| member | source | states |
|---|---|---|
| Common.EqualsIgnoreCaseIffSameUpper | Program.cs:113-116 | Ordinal case-insensitive equality holds exactly when the upper-cased strings are equal. |
| Paths.WithTrailingSeparator | Program.cs:164-165 | The result ends with a separator and extends the root by at most one character. It equals the root exactly when the root already ends with a separator. |
| Paths.WithTrailingSeparatorIdempotent | Program.cs:164-165 | Appending the separator a second time changes nothing. |
| Paths.MakePathRelativeTo | Program.cs:162-169 | For a path below the root, the separator-terminated root followed by the result rebuilds the path, and the result is relative. |
| Paths.MakePathRelativeToIgnoresTrailingSeparator | Program.cs:162-169 | A root given with or without its trailing separator yields the same relative path. |
| Paths.SiblingIsNotUnder | Program.cs:164-167 | A sibling whose name extends the root's name (`/data/src2` next to `/data/src`) is never treated as under the root. This is why the separator is appended. |
| Paths.Combine | Program.cs:128 | `Path.Combine`: an empty part yields the other part, a rooted second part wins, and otherwise exactly one separator joins the two. |
| Paths.DestinationPathFidelity | Program.cs:126-128 | The destination path is the destination root, one separator, and the file's path below the source root, with nothing dropped or altered. |
| Paths.DestinationInjective | Program.cs:126-128 | Two different source files never map to the same destination. |
| Paths.ExtensionIsLastDotSuffix | Program.cs:114 | The extension is empty exactly when the file name has no `.`. Otherwise it is the suffix of the file name that starts at its last `.`. |
| Paths.ExtensionOfSuffix | Program.cs:114 | A name ending in `.` plus a dot-free suffix has `.` plus that suffix as its extension. |
| Paths.Extension | Program.cs:114 | `FileSystemInfo.Extension`: a non-empty extension starts with `.`, holds no separator and is no longer than the path. Its exact value is stated by `ExtensionIsLastDotSuffix`. |
| Paths.FileNameAfter | Program.cs:126 | Dropping a prefix that ends with a separator keeps the file name. |
| Paths.RelativeKeepsFileName | Program.cs:126 | Making a path relative keeps its file name. |
| Paths.LastSegmentIsFileName | Program.cs:126-128 | The last segment of a relative path is its file name. |
| Paths.JoinSplit | Program.cs:126-128 | Splitting a relative path into segments and joining them back gives the path again. |
| Paths.SplitJoin | Program.cs:126-128 | Joining separator-free segments and splitting again gives the same segments. |
| Paths.SplitInjective | Program.cs:126-128 | Different relative paths have different segment sequences. |
| Timestamps.MinValueIsLeast | Program.cs:9 | `DateTime.MinValue` is valid and precedes every other valid timestamp. Only a file accessed at exactly MinValue fails the initial watermark. |
| Timestamps.BeforeTransitive | Program.cs:113 | The `>` comparison of the filter is transitive. |
| Timestamps.Truncate | Program.cs:159 | The result is the latest whole-second instant that is not after the input. |
| Timestamps.Format | Program.cs:159 | The custom format `dd-MMM-yyyy HH:mm:ss` under a culture: its length is 15 plus the length of the month abbreviation plus twice that of the time separator. |
| Timestamps.MonthNumber | Program.cs:95-96 | It returns the month whose invariant abbreviation matches the name ignoring case, or None exactly when no abbreviation matches. |
| Timestamps.Parse | Program.cs:95-96 | Anything `TryParseExact` accepts is a valid date and time with no sub-second part. |
| Timestamps.ParseFormatRoundTrip | Program.cs:95-96 | Parsing the invariant-culture text of a timestamp gives the timestamp truncated to the second. |
| Timestamps.ParseAcceptsOnlyFormat | Program.cs:95-96 | Every string the parser accepts is the invariant-culture text of its result, up to the case of the month name. |
| Timestamps.InvariantMonthsDistinct | Program.cs:95-96 | No two invariant month abbreviations are equal ignoring case, so the parsed month is unambiguous. |
| Timestamps.Pad2Value | Program.cs:159 | The two digits written for a number read back as that number. |
| Timestamps.Pad4Value | Program.cs:159 | The four year digits written for a number read back as that number. |
| Timestamps.DigitsPad2 | Program.cs:95-96 | Two digits that are read and written again give the same text. |
| Timestamps.DigitsPad4 | Program.cs:95-96 | Four digits that are read and written again give the same text. |
| Timestamps.FirstLine | Program.cs:91-95 | `FirstOrDefault` of `ReadAllLines`: None exactly for an empty file. Otherwise it is the longest prefix of the text without a line break. |
| Timestamps.ReadLastImportDate | Program.cs:87-100 | Without a sentinel file the watermark is unchanged. With one, it is MinValue or a valid whole-second timestamp. |
| Timestamps.OnlyFirstLineRead | Program.cs:91-95 | Text after the first line break of the sentinel, `\n` or `\r` (and so also `\r\n`), never affects the watermark. |
| Timestamps.UnparsableSentinelMeansMinValue | Program.cs:93-99 | An empty or unparsable sentinel resets the watermark to MinValue, whatever it was before. |
| Timestamps.FormatNoLineBreak | Program.cs:159 | The written text holds no line break, so all of it is the sentinel's first line. |
| Timestamps.WriteTimestamp | Program.cs:159 | The corrected writer produces the 20-character invariant text. It is the corrected half of the Program.cs:159 finding. |
| Timestamps.WriteTimestampAsWritten | Program.cs:159 | The writer as written, under the current culture. It writes the invariant text when the culture agrees with the invariant one on the month and the time separator. With a one-character separator and a month abbreviation that is not three characters long, it writes something else. |
| Timestamps.WatermarkRoundTrip | Program.cs:159 | What the corrected writer stores reads back as the write time to the second. |
| Timestamps.AsWrittenTimestampLost | Program.cs:159 | As written, under a culture whose abbreviation of the month is longer than three characters, whose time separator is one character, and neither of which holds a line break, the stored text reads back as MinValue. |
| Timestamps.FrenchJanuaryTimestampLost | Program.cs:159 | As written, a January run under fr-FR stores text that reads back as MinValue. |
| Filter.Candidates | Program.cs:113-116 | A file is a candidate exactly when it is listed, was accessed strictly after the watermark, and has a document extension. There are never more candidates than listed files. |
| Filter.IsCandidate | Program.cs:113-115 | A candidate is a document whose access time differs from the watermark (it is strictly after it). |
| Filter.IsDocument | Program.cs:114-115 | A document has a non-empty extension that starts with `.`. Which extensions qualify is stated by `IsDocumentIffUpperExtension`. |
| Filter.CandidatesKeepOrder | Program.cs:113-116 | The filter keeps scan order: filtering a listing in two parts is filtering each part in turn. |
| Filter.CandidatesIdempotent | Program.cs:113-116 | Filtering the candidates again changes nothing. |
| Filter.LaterWatermarkFiltersMore | Program.cs:113-116 | Filtering with an earlier watermark and then a later one is the same as filtering once with the later one. |
| Filter.IsDocumentIffUpperExtension | Program.cs:15 | A file is a document exactly when its upper-cased extension is `.PDF`, `.DOCX` or `.XLSX`. |
| Filter.DocumentExtensionLength | Program.cs:15 | A document's extension has four or five characters. |
| Filter.SentinelNeverCandidate | Program.cs:35 | The sentinel file in the source root is never copied. |
| Filter.DocumentNotNamedDsStore | Program.cs:113-116 | No document is named `.DS_Store`, so the trim pass never deletes a copied document. |
| DestTree.Parent | Program.cs:141 | The parent path is the path without its last segment. |
| DestTree.HasFile | Program.cs:130 | `FileInfo.Exists` on the destination: a file exists only at a non-empty path. |
| DestTree.HasDir | Program.cs:141 | `DirectoryInfo.Exists` on the destination: the root, and every directory reached through existing subdirectories. |
| DestTree.FileIsNotDir | Program.cs:141-147 | In a well-formed tree no path is both a file and a directory. |
| DestTree.CreateDirectory | Program.cs:144 | On success the requested directory exists. |
| DestTree.CreateDirectoryFailsIffBlocked | Program.cs:144 | `CreateDirectory` fails exactly when a file stands on the path. |
| DestTree.CreateDirectoryEffect | Program.cs:144 | A successful creation adds exactly the directories along the path, changes no file, and keeps the tree well formed. |
| DestTree.AddFileEffect | Program.cs:147 | `File.Copy` changes the file at its destination and nothing else, and creates no directory. |
| DestTree.AddFile | Program.cs:147 | After `File.Copy` the destination path holds the copied content. |
| CopyEngine.Destination | Program.cs:126-128 | The segments of the destination, joined with separators, are the file's path relative to the source root. |
| CopyEngine.DestinationEndsWithFileName | Program.cs:126-128 | The destination's last segment is the source file's name. |
| CopyEngine.DestinationNamesFile | Program.cs:126-128 | The destination ends in a given name exactly when the source file has that name. |
| CopyEngine.Jobs | Program.cs:124-128 | There is one job per candidate, and each has a non-empty destination. |
| CopyEngine.Run | Program.cs:124-155 | The loop over the candidates in order yields one outcome per candidate. |
| CopyEngine.CopyOne | Program.cs:130-154 | The candidate is skipped exactly when its destination file exists, and a skip changes nothing. |
| CopyEngine.Place | Program.cs:147-153 | The copy errors exactly when its own attempt fails or a directory already has the file's name. An error changes nothing. |
| CopyEngine.CopyOneEffect | Program.cs:130-154 | A copied file holds the source's content inside an existing parent directory. An error always has a cause: the attempt failed, a file blocks the parent, or a directory has the name. |
| CopyEngine.CreateDirectoryBlockedOrFails | Program.cs:141-145 | `CreateDirectory` fails only where a file stands on the path. |
| CopyEngine.Record | Program.cs:133-153 | The outcome's own counter goes up by one, and the other two are unchanged. |
| CopyEngine.Tally | Program.cs:120-155 | The three counters always add up to the number of candidates. |
| CopyEngine.TallyCounts | Program.cs:120-155 | Each counter is the number of candidates with that outcome. |
| CopyEngine.CopyFile | Program.cs:130-154 | The method's outcome and resulting tree are those of `CopyOne`. |
| CopyEngine.CopyCandidates | Program.cs:120-155 | The loop's counters and final tree are those of `Run`, and the counters sum to the number of candidates. |
| CopyEngine.RunStep | Program.cs:124-155 | One more iteration extends `Run` by one outcome and the tree that iteration leaves. |
| CopyEngine.TallyStep | Program.cs:133-153 | Counting one more outcome is one `Record`. |
| CopyEngine.RunPrefix | Program.cs:124-155 | The first n outcomes of the loop are those of the loop over the first n candidates. |
| CopyEngine.RunOutcomeAt | Program.cs:124-155 | The outcome of candidate i is decided on the tree the earlier candidates left. |
| CopyEngine.CopyOneFrame | Program.cs:139-149 | One iteration changes no file except its destination and removes no directory. It adds directories only along the destination's parent. |
| CopyEngine.RunNeverOverwrites | Program.cs:130-147 | Files and directories already in the destination keep their content through the whole loop. |
| CopyEngine.CopiedFileLands | Program.cs:147-148 | A candidate counted as copied is at its destination with the source's content after the loop. |
| CopyEngine.RunSplit | Program.cs:124-155 | Running the loop in two parts is running it once. |
| CopyEngine.RunAppend | Program.cs:124-155 | The outcomes of a loop over two concatenated job lists are the outcomes of the two loops in turn. |
| CopyEngine.RunAppendTree | Program.cs:124-155 | The tree after a loop over two concatenated job lists is the tree after the two loops in turn. |
| CopyEngine.StepKeepsIndependentView | Program.cs:139-149 | One iteration does not change what an independent destination's iteration will look at. |
| CopyEngine.RunKeepsIndependentView | Program.cs:124-155 | The earlier iterations do not change what a later, independent destination's iteration will look at. |
| CopyEngine.OutcomesAreIsolated | Program.cs:124-155 | Each outcome depends only on the destination before the loop and on that candidate's own attempt. It is skipped exactly when its file existed, copied when nothing stood in the way and its attempt met no fault, and an error always has a cause of its own. |
| CopyEngine.OnlyFailingCopiesError | Program.cs:139-154 | With fresh, unobstructed destinations, exactly the candidates whose copy fails are errored and all others are copied. One failure among N gives N-1 copies. |
| CopyEngine.SecondRunSkips | Program.cs:130-135 | Re-running the loop skips every candidate that did not error the first time. After an error-free run the second run skips all of them. |
| CopyEngine.SkippedFileStays | Program.cs:130-135 | A skipped candidate's destination file is still there after the loop. |
| Trimmer.Children | Program.cs:54-57 | Every subdirectory gets its own pass. |
| Trimmer.Remaining | Program.cs:73 | The remaining subdirectories are exactly those whose pass kept them. |
| Trimmer.Trim | Program.cs:52-85 | A kept directory holds its old files minus `.DS_Store`, and only subdirectories it had. A directory is removed only when its deletion is not refused. |
| Trimmer.Settle | Program.cs:59-84 | A kept directory has lost only its `.DS_Store` and keeps exactly the subdirectories left by their own passes. A directory is removed only when its deletion is not refused. |
| Trimmer.TrimEmptyDirs | Program.cs:52-85 | The recursive method computes `Trim`. |
| Trimmer.SettleDir | Program.cs:59-84 | The directory's own step computes `Settle`. |
| Trimmer.NothingStuck | Program.cs:61-66 | Without an undeletable `.DS_Store`, no directory of the tree has one. |
| Trimmer.TrimAbortsIff | Program.cs:61-66 | The pass ends with an exception exactly when some `.DS_Store` of the tree cannot be deleted. |
| Trimmer.TrimRemovesIff | Program.cs:52-85 | A directory is deleted exactly when its whole tree holds only `.DS_Store` files, no directory in it refuses deletion, and the pass is not aborted. |
| Trimmer.SettleRemovesIff | Program.cs:59-84 | A directory's own step deletes it exactly when it has only `.DS_Store` files, every subdirectory was deleted, and its deletion succeeds. |
| Trimmer.TrimKeepsRealFiles | Program.cs:61-71 | A kept tree holds every file it held before except the `.DS_Store` files, which are all gone. |
| Trimmer.DroppedChildHoldsNoRealFile | Program.cs:70-78 | A deleted subdirectory held only `.DS_Store` files. |
| Trimmer.NoRealFileLookup | Program.cs:70-78 | In a tree without real files, every file is a `.DS_Store`. |
| Trimmer.RealFileFound | Program.cs:70-71 | A file other than `.DS_Store` anywhere in the tree makes it a tree with a real file. |
| Trimmer.TrimOnlyDeletes | Program.cs:52-85 | The pass never creates a directory. |
| Trimmer.UndeletableDirStays | Program.cs:76-84 | A directory whose deletion fails stays, along with its ancestors, unless the pass aborts. |
| Trimmer.TrimIdempotent | Program.cs:52-85 | Trimming a trimmed tree again changes nothing. |
| Trimmer.TrimDestinationAsWritten | Program.cs:41 | As written, the destination root itself is deleted exactly when its tree has no real file, nothing refuses deletion, and no `.DS_Store` is stuck. |
| Trimmer.EmptyDestinationRemovedAsWritten | Program.cs:41 | As written, an empty destination is itself deleted. |
| Trimmer.KeepRoot | Program.cs:41 | The root's deletion is refused, and every other fault is unchanged. Only the corrected pass uses it. |
| Trimmer.TrimDestination | Program.cs:41 | The corrected pass over the destination never deletes its root. It is the corrected half of the Program.cs:41 finding. |
| Trimmer.TrimDestinationKeepsRoot | Program.cs:41 | The corrected pass never deletes the destination root, and aborts exactly when the pass as written does. |
| Trimmer.TrimDestinationAgreesBelowRoot | Program.cs:54-57 | Below the root, the corrected pass does exactly what the pass as written does. |
| Trimmer.StuckIgnoresUndeletable | Program.cs:61-66 | Whether a `.DS_Store` is stuck does not depend on which directories refuse deletion. |
| Trimmer.TrimIgnoresOtherFaults | Program.cs:52-85 | The pass over a subtree reads only that subtree's faults. |
| Trimmer.DsStoreOnlyTreeRemoved | Program.cs:52-85 | For A/B holding only `.DS_Store`, B is deleted and then A. |
| Trimmer.OnlyEmptySiblingRemoved | Program.cs:52-85 | For A/B/real.pdf next to an empty A/C, only C is deleted. |
| Importer.DestinationOf | Program.cs:26-27 | The second argument is the destination only when there are exactly two arguments. |
| Importer.TimestampPath | Program.cs:35 | The sentinel path is the source root, a separator and `.PaperlessImportTimestamp`. |
| Importer.SentinelText | Program.cs:89-91 | The sentinel has content exactly when the file exists. |
| Importer.Import | Program.cs:17-50 | One run as written. In a completed run, the three counters add up to the number of candidates. |
| Importer.ImportFrom | Program.cs:37-41 | Once the start-up checks pass, the run always completes and its counters add up to the number of candidates. The destination is missing from the directories afterwards exactly when the trim pass deleted it. |
| Importer.Program.constructor | Program.cs:7-11 | The fields start with no source, the default destination, MinValue and no sentinel path. |
| Importer.Program.ReadLastImportDate | Program.cs:87-103 | The method sets the watermark field to `ReadLastImportDate` of the sentinel and changes no other field. |
| Importer.Program.ScanForDocuments | Program.cs:105-160 | It returns the candidates, the counters and the tree of `Run`, and the text files with the sentinel written under the current culture. |
| Importer.Program.Start | Program.cs:17-50 | `Main` from the initial fields yields exactly `Import`. The fields end holding the source, the selected destination, the sentinel path and the watermark read. |
| Importer.Program.Proceed | Program.cs:37-41 | After the checks, the method yields exactly `ImportFrom`: it trims from the destination root and records a deleted root as missing. It leaves the read watermark in its field. |
| Importer.FatalIff | Program.cs:21-33 | The run stops at start-up exactly when there is no argument, the source is missing, or the selected destination is missing. It then changes nothing. |
| Importer.ExtraArgumentsIgnored | Program.cs:26-27 | With more than two arguments, only the first one counts. |
| Importer.CompletedRun | Program.cs:21-41 | A completed run passed the start-up checks and is the run from the source and the destination its arguments name. |
| Importer.TimestampAlwaysWritten | Program.cs:157-159 | Every completed run writes the sentinel with the write time formatted under the current culture, whatever errors the copy loop counted and whatever the trim pass met. |
| Importer.WatermarkContinuity | Program.cs:95-159 | When the current culture writes the run's month and the time separator as the invariant culture does, a next run that gets past its start-up checks reads this run's time to the second, and its candidates are the files accessed after it. |
| Importer.WatermarkLostAsWritten | Program.cs:95-159 | As written, when the current culture's abbreviation of the run's month is longer than the invariant one, a next run that gets past its start-up checks reads MinValue, and every document in its listing is a candidate again. |
| Importer.FailedCopyNotRetried | Program.cs:113-159 | When the current culture writes this run's time as the invariant culture does, a file is a candidate of the next run exactly when it is a listed document last accessed after the start of the second this run wrote. A failed file last accessed no later than that is not retried; one accessed later within that second is retried without a new access. |
| Importer.DestinationSurvives | Program.cs:32-41 | The trim pass deletes the destination root exactly when, after the copy loop, it holds only `.DS_Store` files, none stuck, and no directory of it refuses deletion. The next run with the same arguments gets past its start-up checks exactly when the root survived. |
| Importer.EmptiedDestinationStopsNextRun | Program.cs:32-41 | As written, a run that copies nothing into an empty destination, separate from the source, deletes the destination root, and the next run stops with "Destination folder ... does not exist." |
| Importer.ExistingFilesSurvive | Program.cs:130-147 | Files already in the destination survive a run unchanged, except `.DS_Store` files, and a destination holding one is never deleted. |
| Importer.CopyIntoEmpty | Program.cs:124-155 | One document copied into an empty destination lands at its relative path, with counters 1, 0, 0. |
| Importer.DocumentIsNoDsStore | Program.cs:61 | A document's destination never names a `.DS_Store` file. |
| Importer.TrimWithoutStuckCompletes | Program.cs:61-66 | Without a stuck `.DS_Store`, the trim pass over the destination is not interrupted. |
| Importer.TrimKeepsDocument | Program.cs:59-78 | Without a stuck `.DS_Store`, trimming a destination that holds a document keeps the destination and the document in it. |
| Importer.FirstRunCopiesTheDocument | Program.cs:17-50 | In a first run over one document and one other file, the document is the only candidate. It is copied to its relative path, the counters read 1, 0, 0, and the sentinel is created holding the write time under the current culture. |
| Importer.ExampleCandidates | Program.cs:113-116 | `/src/docs/report.pdf` is a candidate under the initial watermark, and `/src/docs/photo.jpg` is not a document. |
| Importer.ExampleSentinelText | Program.cs:159 | The corrected writer writes 5 January 2024 13:45:02 as `05-Jan-2024 13:45:02`. |

## Left out

- Console output (`Console.WriteLine`) and the six-second `Thread.Sleep` after an error are not modelled. They change no state that a later step reads.
- The clock is the input `Environment.now`. The listing, the existing directories, the sentinel text and the destination tree are inputs too.
- Which filesystem operations throw is an input (`copyFaults`, `trimFaults`). The real causes (permissions, a full disk, races) are not modelled.
- Exceptions from `GetFiles` on the source tree, `ReadAllLines` and `WriteAllText` are not modelled. They would end the run with the error message.
- File contents are represented by the source path they were copied from. Bytes and partially written files are not modelled.
- Paths.MakePathRelativeTo: models only paths below the root, which is all the listing yields. `Path.GetRelativePath`'s `..` results for other paths are not modelled.
- Arguments are taken as full names. `DirectoryInfo` normalisation (relative arguments, `.` and `..`, doubled separators) is not modelled.
- Common.EqualsIgnoreCase: folds case for ASCII letters only. The extensions and month names involved are ASCII, but non-ASCII folding by `OrdinalIgnoreCase` is not modelled.
- Timestamps.Parse: accepts exactly what the format allows in the invariant culture. `TryParseExact`'s other cultures and calendars are not modelled, and `null` input is modelled as an empty file.
- Timestamps.WriteTimestampAsWritten: a culture is reduced to its month abbreviations and time separator. Other culture data (other calendars, native digits) is not modelled.
- CopyEngine.Tally: the counters are unbounded. The source's `int` counters would wrap after 2^31-1 candidates, which no real listing reaches.
- CopyEngine.CopyOne: a failed directory creation leaves the tree unchanged. A real `CreateDirectory` may fail after creating some of the directories.
- CopyEngine.OutcomesAreIsolated: requires pairwise independent destinations. Files of one source tree always satisfy this, but it is stated as a hypothesis rather than derived from the listing.
- Importer.ImportFrom: after an aborted trim pass the destination is taken as the copy loop left it. The real pass may already have deleted some directories before the exception.
- Importer.ImportFrom: the source is assumed to be neither the destination nor below it (`Consistent`). The program accepts both. Then the sentinel written at Program.cs:159 lies inside the tree the trim pass walks, so the pass also trims the source tree and the sentinel keeps the destination root. This overlap is not modelled.
- Importer.DestinationSurvives: its "exactly when" is proved under the same assumption. With the source inside the destination, the sentinel alone keeps the root.
- Importer.ImportFrom: when the trim pass deletes the destination root, only the destination itself is recorded as missing. The directories the run finds are the ones its start-up checks ask about, so the deleted subdirectories are not tracked in that set.
- Trimmer.Trim: the order of `GetDirectories` is not modelled. It matters only for which directories were already deleted before an abort, which is the case left out above.
- Symbolic links and access-time updates caused by the program's own reads are not modelled.

## Findings

| source | as written | input that shows it | evidently intended | confidence | as-written member | corrected member |
|---|---|---|---|---|---|---|
| Program.cs:159 | The timestamp is formatted with the process's current culture. The reader (Program.cs:95-96) parses with the invariant culture. | A run under fr-FR on 5 January 2024 at 13:45:02 writes `05-janv.-2024 13:45:02`. The next run cannot parse it and falls back to MinValue. Every document in its listing is a candidate again: those no longer at their destination are copied again, and the others are skipped. | Write with the invariant culture, so the next run reads the write time back. | not executed; medium, because it depends on the host's culture | Timestamps.FrenchJanuaryTimestampLost | Timestamps.WatermarkRoundTrip |
| Program.cs:41 | The trim pass is applied to the destination root itself, which is deleted when it is left empty. | An empty destination with no candidates: the root is removed, and the next run stops with "Destination folder ... does not exist". | Trim below the destination root and always keep the root. | not executed; medium | Trimmer.EmptyDestinationRemovedAsWritten | Trimmer.TrimDestinationKeepsRoot |
