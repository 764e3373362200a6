# Apple Photos export folder rename tool — a Dafny model of its core

The tool walks the folders of an Apple Photos export root. Their names look like
"Area - Street, 2021年3月9日". Each folder is renamed to the date in its name,
"2021-03-09". When a folder of that name already exists, the files are merged
into it instead. A small wrapper around exiftool reads tag lines
(`group TAB name TAB value`) from the tool's text output.

The project models both pieces:

- `wrappers.dfy` — module `Wrappers`: the `Option` type.
- `text.dfy` — module `Text`: the ordinal .NET string searches the source
  relies on (`IndexOf` on a character, `IndexOf`/`Contains` on a string), and a
  "last occurrence" search used for the greedy regular-expression groups.
- `exif_tool.dfy` — module `ExifTool`:
  - the class `ExifToolWrapper`, whose `items` sequence is the record list that
    the C# class inherits from `List<ExifTagItem>`;
  - its parse loop `Run`, proved against the specification function `Records`;
  - the queries `HasExifData` and `Find`;
  - the `"Error"` check of `SaveExifData`/`WriteExifData`.
- `folder_name.dfy` — module `FolderName`: what the per-directory lambda makes
  of a folder name:
  - the effect of the two regular expressions;
  - `int.Parse`, including its two failures;
  - the `{0:0000}-{0:00}-{0:00}` formatting.
- `merge_rename.dfy` — module `MergeRename`: the merge-or-rename step on an
  abstract export root. The class `ExportFolder` maps each directory name to
  its files and sub-directories. It has:
  - the per-directory step `ProcessDirectory`;
  - the file-by-file merge loop `MergeInto`;
  - the batch `Execute`.

How the model treats the source's behaviour:

- **Run's last line.** `Run` reads `output[epos + 1]` after a `'\r'`. When that
  `'\r'` is the last character, the read is out of range and throws. The record
  of that last line has already been added by then. The model returns
  `completed == false` in exactly that case, with the same records.
- **Folder-name pattern and line feeds.** The pattern's `.` does not match
  `'\n'`, so only the part of the name before its first line feed is split.
- **Where the date is searched.** The date pattern is applied to the `date`
  group only.
- **`int.Parse` failures.** `int.Parse` throws on an empty digit run and on a
  value above 2147483647. That exception is not caught inside the lambda, so
  the batch stops (`ParseFailed`).
- **Name collisions during a merge.** `File.Move` without the overwrite flag
  throws when the destination folder already holds a file or sub-directory of
  that name. This exception is not caught either, so the rest of that folder's
  files stay where they are and the batch stops (`MoveFailed`). So a merge
  never overwrites a file, and one colliding file ends the whole batch.
- **`Directory.Delete`** is not recursive. It fails when sub-directories remain,
  or for environmental reasons such as locks and permissions. The failure is
  caught (`MergedWithResidue`).
- **`Directory.Move`** failures are caught too (`RenameFailed`).
- **Environmental failures** are an input to the model (`Faults`): refused file
  moves, a refused delete and a refused rename.

## Model

| member | source | states |
|---|---|---|
| ExifTool.ExifToolWrapper.Run | ApplePhotoExportFolderRenameTool/ExifToolWrapper.cs:66-105 | The earlier records are discarded. The list becomes `Records(output)`: one record per tag line, in line order. The result is false exactly when the output ends in `'\r'`, i.e. when `output[epos + 1]` is read past the end. |
| ExifTool.ExifToolWrapper.HasExifData | ApplePhotoExportFolderRenameTool/ExifToolWrapper.cs:108-111 | True exactly when the last run produced at least one record. |
| ExifTool.ExifToolWrapper.Find | ApplePhotoExportFolderRenameTool/ExifToolWrapper.cs:113-115 | None exactly when no record has that name (exact, ordinal comparison). Otherwise the result is a record with that name, and no earlier record in the list has it. |
| ExifTool.CommandSucceeded | ApplePhotoExportFolderRenameTool/ExifToolWrapper.cs:140-167 | `SaveExifData` (lines 140-143) and `WriteExifData` (lines 164-167) report success exactly when the output does not contain "Error". |
| ExifTool.LineEnd | ApplePhotoExportFolderRenameTool/ExifToolWrapper.cs:69-73 | A line ends at the first `'\r'`, or at the end of the output. No `'\r'` lies before that point, so a `'\n'` without a `'\r'` stays inside the line. |
| ExifTool.Rest | ApplePhotoExportFolderRenameTool/ExifToolWrapper.cs:101-104 | Consuming a line and its terminator strictly shortens the output, so the loop terminates. |
| ExifTool.RestKeepsLast | ApplePhotoExportFolderRenameTool/ExifToolWrapper.cs:101-104 | What is left after a line ends in `'\r'` exactly when the whole output does. When nothing is left and the terminator was not the last character, the output did not end in `'\r'`. |
| ExifTool.SplitLineFields | ApplePhotoExportFolderRenameTool/ExifToolWrapper.cs:74-83 | The contract of `SplitLine`. A line is split exactly when its first tab is at index > 0 and a second tab follows it. The group is then non-empty and neither group nor name holds a tab. Group TAB name TAB raw value is the line itself. |
| ExifTool.SplitLineOfFields | ApplePhotoExportFolderRenameTool/ExifToolWrapper.cs:74-83 | The converse: a line written from a non-empty, tab-free group and a tab-free name splits back into exactly those fields. |
| ExifTool.StripNotice | ApplePhotoExportFolderRenameTool/ExifToolWrapper.cs:85-90 | A value without `, use -b option to extract` is unchanged. Otherwise exactly the first occurrence (26 characters) is removed, and the text before and after it is kept. |
| ExifTool.StripNoticeOfNotice | ApplePhotoExportFolderRenameTool/ExifToolWrapper.cs:86-90 | `before + notice + after` becomes `before + after` when `before` holds no notice. |
| ExifTool.RecordsOfPrint | ApplePhotoExportFolderRenameTool/ExifToolWrapper.cs:66-105 | Round trip: parsing CR LF-terminated tag lines printed from records gives back exactly those records, in order, with the notice removed from each value. |
| ExifTool.RecordsFields | ApplePhotoExportFolderRenameTool/ExifToolWrapper.cs:66-105 | The records of `Records`, the list `Run` builds: at most one per output line, each with a non-empty group, and no tab in any group or name. |
| ExifTool.RecordsEmptyIff | ApplePhotoExportFolderRenameTool/ExifToolWrapper.cs:66-99 | A run yields no record, so `HasExifData` is false, exactly when none of the output's lines is a tag line. Empty output is one such case. |
| Text.IndexOfChar | ApplePhotoExportFolderRenameTool/ExifToolWrapper.cs:69 | `IndexOf(c, start)` returns the first position at or after `start` that holds `c`, or -1 when no such position exists. |
| Text.IndexOfText | ApplePhotoExportFolderRenameTool/ExifToolWrapper.cs:86 | Ordinal `IndexOf(pat)` returns the first occurrence at or after `start`, or -1 when there is none. |
| FolderName.FirstLine | ApplePhotoExportFolderRenameTool/MainWindow.xaml.cs:63-67 | The text the pattern sees holds no `'\n'`. It is the whole name, or the prefix of the name that ends at its first `'\n'`. |
| FolderName.SplitName | ApplePhotoExportFolderRenameTool/MainWindow.xaml.cs:63-68 | area + street + date is the (first line of the) folder name. |
| FolderName.SplitNameGreedy | ApplePhotoExportFolderRenameTool/MainWindow.xaml.cs:63-79 | `area` is empty or ends in " - ", and no " - " ends later in the line. `street` is empty or ends in ", ", and no ", " ends later in what follows `area`. |
| FolderName.DigitRunEnd | ApplePhotoExportFolderRenameTool/MainWindow.xaml.cs:74 | A greedy `\d*` consumes digits only, and stops at the end of the text or at a non-digit. |
| FolderName.MatchAt | ApplePhotoExportFolderRenameTool/MainWindow.xaml.cs:74 | A match at `p` starts at `p`, and its three groups are digit strings. |
| FolderName.MatchAtIff | ApplePhotoExportFolderRenameTool/MainWindow.xaml.cs:74 | The date pattern matches at `p` with groups Y, M and D exactly when they are digit strings and `Y年M月D日` occurs at `p`. |
| FolderName.FindDate | ApplePhotoExportFolderRenameTool/MainWindow.xaml.cs:80 | `Regex.Match` returns the leftmost match: no match starts earlier, and none is missed. |
| FolderName.NoYearMarkNoDate | ApplePhotoExportFolderRenameTool/MainWindow.xaml.cs:80-85 | A date part without 年 has no match, so the folder is skipped. |
| FolderName.Digits | ApplePhotoExportFolderRenameTool/MainWindow.xaml.cs:91 | The shortest decimal numeral of `n`: non-empty digits with no leading zero, denoting `n`. |
| FolderName.Pad | ApplePhotoExportFolderRenameTool/MainWindow.xaml.cs:91 | `{n:00…0}` gives digits denoting `n`, padded with zeros to the width and never truncated. |
| FolderName.LeadingZeros | ApplePhotoExportFolderRenameTool/MainWindow.xaml.cs:91 | Zeros in front of a numeral do not change its value. |
| FolderName.ParseInt | ApplePhotoExportFolderRenameTool/MainWindow.xaml.cs:87-89 | `int.Parse` on a digit group succeeds exactly when the group is non-empty and its value is at most `Int32.MaxValue`, and then returns that value. |
| FolderName.FormatReadsBack | ApplePhotoExportFolderRenameTool/MainWindow.xaml.cs:91 | The contract of `Format`. For a year of at most four digits and a month and day of at most two, the name is ten characters, `yyyy-MM-dd`. The year at 0-3, the month at 5-6 and the day at 8-9 read back as their values, with hyphens at 4 and 7. |
| FolderName.ParsePadded | ApplePhotoExportFolderRenameTool/MainWindow.xaml.cs:87-91 | `int.Parse` reads a zero-padded numeral of any `n <= Int32.MaxValue` back as `n`. |
| FolderName.Resolve | ApplePhotoExportFolderRenameTool/MainWindow.xaml.cs:60-91 | The folder is left alone exactly when its date part holds no `Y年M月D日`. A new name never holds 年. |
| FolderName.ResolveMatch | ApplePhotoExportFolderRenameTool/MainWindow.xaml.cs:80-91 | Once the leftmost match is known, the new name is `Format` of the three values. If a group is empty or above `Int32.MaxValue`, the result is a parse failure. There is no calendar or range check. |
| FolderName.ResolveDate | ApplePhotoExportFolderRenameTool/MainWindow.xaml.cs:74-91 | A date part of the form `lead + Y年M月D日 + tail` resolves from Y, M and D, where `lead` has no 年 and does not end in a digit. The new name is their zero-padded values, with no range check, so a month of 13 passes into the name. It is a parse failure when a group is empty or overflows. |
| FolderName.LeftmostDate | ApplePhotoExportFolderRenameTool/MainWindow.xaml.cs:80 | The search finds the first `Y年M月D日` after text that can neither hold nor begin a match. |
| FolderName.NoMarkInFormat | ApplePhotoExportFolderRenameTool/MainWindow.xaml.cs:91 | A generated name holds no 年. |
| FolderName.ResolvedNameIsNew | ApplePhotoExportFolderRenameTool/MainWindow.xaml.cs:74-91 | The new name differs from the folder's name. Resolving the new name finds no date, so a second pass skips renamed folders. |
| FolderName.DateInName | ApplePhotoExportFolderRenameTool/MainWindow.xaml.cs:79 | Every character of the date group comes from the folder name. |
| MergeRename.RenameKeepsContent | ApplePhotoExportFolderRenameTool/MainWindow.xaml.cs:115-125 | After `Directory.Move` the source is gone and the destination holds exactly the source's files and sub-directories. Every other directory is unchanged. |
| MergeRename.MoveFilesConserves | ApplePhotoExportFolderRenameTool/MainWindow.xaml.cs:98-104 | Moving non-colliding files under their own names loses and overwrites nothing. The two directories hold the same files between them, as many as before. Their sub-directories and all other directories are unchanged. |
| MergeRename.MergeConserves | ApplePhotoExportFolderRenameTool/MainWindow.xaml.cs:96-113 | A merge, finished or stopped at a file, loses and overwrites no file. The files left in the source plus those in the destination are the files both held before, as many as before. The source is gone only when every file moved and the delete succeeded. |
| MergeRename.MergeFailsIff | ApplePhotoExportFolderRenameTool/MainWindow.xaml.cs:99-104 | A merge stops on a file exactly when some file of the source collides at the destination or is refused. |
| MergeRename.RelocateFrame | ApplePhotoExportFolderRenameTool/MainWindow.xaml.cs:95-125 | Whatever the outcome of a rename or merge, only the source and the destination change. The destination is never removed, and no new directory appears besides it. |
| MergeRename.ResolutionsAreNew | ApplePhotoExportFolderRenameTool/MainWindow.xaml.cs:74-91 | No folder in a list resolves to its own name. This is what the batch requires of the resolutions it receives. |
| MergeRename.ExportFolder.MergeInto | ApplePhotoExportFolderRenameTool/MainWindow.xaml.cs:96-113 | The files are moved one by one. Either all are moved and the source is deleted (when it has no sub-directories and the delete is not refused), or all are moved and the source is left behind. Otherwise the loop stops at a colliding or refused file. Every file it moved before that neither collided nor was refused. |
| MergeRename.ExportFolder.ApplyResolution | ApplePhotoExportFolderRenameTool/MainWindow.xaml.cs:80-125 | No date: skipped, nothing changes. Parse failure: the batch stops, nothing changes. New name: merge when the destination exists, otherwise rename or a caught rename failure. In every case no directory other than the source and target changes. |
| MergeRename.ExportFolder.ProcessDirectory | ApplePhotoExportFolderRenameTool/MainWindow.xaml.cs:60-125 | The whole lambda for one folder: `ApplyResolution` of `Resolve` of its name. The new name is never the folder's own. |
| MergeRename.ExportFolder.Execute | ApplePhotoExportFolderRenameTool/MainWindow.xaml.cs:56-126 | One outcome per folder processed, in order. The batch stops only right after a parse or move failure. Each outcome is the one its folder's resolution leads to. The ghost `states` run from the directories before the batch to those after it. Each step goes from one state to the next exactly as `ApplyResolution` allows for that folder. A directory that was neither a processed folder nor a target is unchanged. |

## Left out

- Subprocess launch (`Open`, `%COMSPEC%`) and the two output-draining threads
  are operating-system I/O and concurrency. `Run` takes the tool's combined
  output as a string.
- `CheckToolExists` and `GetAppPath` are left out. They are file-system probes
  and reflection; their only logic is a `Length < 4` threshold.
- The exiftool command lines built in `Run`, `SaveExifData` and
  `WriteExifData` are plain argument strings for the external tool.
- The WPF window, the folder picker and `Debug` output are UI and logging.
- `Task.Run` and `Parallel.ForEach` are left out. The batch is modelled as a
  sequential pass in the order given. In the parallel original, an uncaught
  exception stops new iterations from starting, but iterations already
  running finish. The model stops right after the failing folder.
- MergeRename.ExportFolder.Execute: it receives each folder's resolution as an
  argument instead of calling `Resolve` itself.
  - `ProcessDirectory` composes `Resolve` with the same step.
  - `ResolutionsAreNew` shows that `Resolve`'s results meet `Execute`'s
    requirement.
- `\d` is modelled as the ASCII digits. .NET's `\d` also matches other Unicode
  decimal digits, which `int.Parse` would then reject.
- Files directly under the export root are not modelled. This also covers a
  file that has the target's name, which would make `Directory.Exists` false
  and `Directory.Move` fail.
- Case-insensitive name comparison on the file system is not modelled.
  - For directories this does not matter: the generated names hold only digits
    and hyphens.
  - For files it does: `File.Move` of `IMG_1.JPG` into a folder that holds
    `img_1.jpg` throws on a volume that ignores case. `Collides` compares names
    exactly, so such a collision enters the model only as a refused move
    (`moveRefused` in `Faults`).
- `Find` with a null `tagname` is left out: strings are never null here.
- File timestamps are not modelled. No core code applies capture dates to
  files.
