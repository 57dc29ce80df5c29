# Screenshot and folder utilities, modelled in Dafny

This project models three small batch utilities and proves properties of them.

- **Screenshot renamer** (`rename_screenshot.py`). It gives every new screenshot in a folder a name `NNN_topic.ext`. `NNN` is a running three-digit index that starts one above the largest index already in the folder. The topic comes from OCR text, which a generative service turns into a phrase and a sanitiser cleans.
- **Sequential renamer** (`rename_images_sequentially.py`). It renames every image of a folder, in sorted order, to `keyword_01.ext`, `keyword_02.ext`, and so on.
- **Folder creator** (`folder_creator.py`). It creates the subfolders `prefix1 … prefixN` that are missing. Inside a directory called `moduleM` the names are `prefixM.1 … prefixM.N` instead.

Names are `seq<char>`, and a directory is the `set<string>` of its names. A listing is taken in sorted order. The outside world is reached through oracle parameters:
- OCR: name to `Option<string>`, with `None` for an exception;
- the generative service: the 2000-character excerpt to `Option<string>`;
- `os.rename`: a pair of names to `bool`;
- `os.makedirs`: a name to `bool`.

Names in a snapshot are distinct, so an oracle that is a function of the name is as general as one that sees each call separately. The generative service is the exception: it is keyed by the excerpt, and two files may share one (see "## Left out").

The modules follow the scripts:
- `Ascii`, `Decimal`, `FileNames`, `Tally`: character classes, `str`/`int`/`:0Nd` formatting, `splitext`, the extension filter, sorted order, and counting successes in a log;
- `SequenceIndex`: the `^\d{3}_` prefix and `get_next_index`;
- `Sanitizer`: `sanitize_filename`;
- `AiNaming`: the fallbacks and the excerpt of `get_ai_generated_name`;
- `TargetName`: `f"{index:03d}_{clean}{ext}"` and the `_k` collision loop;
- `ScreenshotRenamer` and `ScreenshotProperties`: the `process_screenshots` loop and what it guarantees;
- `SequentialRenamer`: `rename_images_sequentially`;
- `FolderCreator`: `create_folders` and the argument checks of its `main`.

Three behaviours of the code are worth stating on their own:
- **Whitespace-only OCR text is not skipped.** rename_screenshot.py:127 skips only `None` and `""`. Whitespace-only text reaches `get_ai_generated_name`, which returns `document_scan` (`ScreenshotProperties.BlankTextIsNotSkipped`).
- **Leading and trailing whitespace runs become `_`.** Nothing trims them (`Sanitizer.SurroundingRunsKept`).
- **`:03d` is a minimum width.** Index 1000 is written `1000_…`, and `^\d{3}_` does not recognise that. The properties that depend on the prefix therefore hold while the index stays at or below 1000 (`TargetName.TargetCarriesIndex`, `SequenceIndex.IndexFieldRecognised`).

## Model

| member | source | states |
|---|---|---|
| Ascii.Lower | rename_screenshot.py:50 | `str.lower` on ASCII: same length, each upper-case letter is mapped to its lower-case form, every other character is kept |
| Decimal.ToDecimal | folder_creator.py:30-32 | `str(i)` is a canonical digit string: non-empty, and no leading zero unless it is "0" |
| Decimal.ValueOfToDecimal | rename_screenshot.py:39 | `int(str(n)) == n` |
| Decimal.ToDecimalOfValue | folder_creator.py:25 | a canonical digit string is `str` of its own value |
| Decimal.PadLeft | rename_screenshot.py:143 | `:0Nd` gives only digits, has length `max(N, len(str(n)))`, and reads back as `n` |
| Decimal.PadLeftInjective | rename_images_sequentially.py:45 | different numbers give different padded fields |
| Decimal.ThreeDigitField | rename_screenshot.py:143 | `:03d` has exactly three digits iff the index is at most 999, and at least four above that |
| FileNames.SplitExt | rename_screenshot.py:141 | `splitext(name)[1]` is empty or a suffix of the name starting at its last dot. It is non-empty iff some dot comes after a non-dot character, so a leading dot does not start an extension |
| FileNames.FilterByExtension | rename_screenshot.py:115 | the kept names are exactly the listed names whose lower-cased form ends in one of the extensions |
| FileNames.FilterKeepsOrder | rename_images_sequentially.py:33-40 | filtering a sorted listing keeps it sorted |
| FileNames.SortedIsDistinct | rename_images_sequentially.py:33 | a strictly sorted snapshot has no repeated name |
| SequenceIndex.PrefixValue | rename_screenshot.py:39 | the value of a recognised three-digit prefix is at most 999 |
| SequenceIndex.MaxPrefix | rename_screenshot.py:32-41 | the running maximum bounds every recognised prefix, and is 0 or attained by one of them |
| SequenceIndex.NextIndex | rename_screenshot.py:27-44 | `get_next_index` is in 1..1000, is above every recognised prefix in the whole listing, and is 1 or one more than some prefix |
| SequenceIndex.NextIndexIgnoresOrder | rename_screenshot.py:36 | the next index depends only on which names are listed, not on the listing order |
| SequenceIndex.OnlyThreeDigitRuns | rename_screenshot.py:34-38 | a name made of a digit run and `_` is recognised iff the run has exactly three digits, so `12_a` and `1234_a` do not count |
| SequenceIndex.IndexFieldRecognised | rename_screenshot.py:143 | `f"{idx:03d}_…"` is recognised by `^\d{3}_` iff idx is at most 999, and then it reads back as idx |
| Sanitizer.Collapse | rename_screenshot.py:51 | replacing separator runs leaves only `_` and the non-separator characters of the input |
| Sanitizer.KeepWordChars | rename_screenshot.py:52 | deleting non-word characters keeps exactly the word characters, and is no longer than its input |
| Sanitizer.Sanitize | rename_screenshot.py:46-53 | the cleaned name holds only lower-case letters, digits and `_`, and is no longer than its input |
| Sanitizer.SanitizeIdempotent | rename_screenshot.py:46-53 | sanitising twice is sanitising once |
| Sanitizer.CleanIsFixedPoint | rename_screenshot.py:46-53 | a name that is already clean is left unchanged |
| Sanitizer.SanitizeSeparatorRun | rename_screenshot.py:51 | a maximal run of whitespace or hyphens becomes exactly one `_` |
| Sanitizer.SanitizeOtherChar | rename_screenshot.py:50-52 | any other character is lower-cased and kept if it is a word character, and dropped otherwise |
| Sanitizer.SanitizeEmptyIff | rename_screenshot.py:51-52 | the result is empty iff the input has no word character and no separator, e.g. all punctuation |
| Sanitizer.SanitizeAppend | rename_screenshot.py:51-52 | a name whose first part does not end in a separator sanitises part by part |
| Sanitizer.SanitizeNoSeparators | rename_screenshot.py:50-52 | a separator-free front part contributes exactly its lower-cased word characters |
| Sanitizer.SurroundingRunsKept | rename_screenshot.py:51-52 | leading and trailing separator runs survive as one `_` each |
| AiNaming.Excerpt | rename_screenshot.py:82 | the excerpt is the prefix of the text of length exactly min(length, 2000), so the whole text when the text is no longer than 2000 characters |
| AiNaming.Strip | rename_screenshot.py:90 | `strip()` is a slice with only whitespace cut off either side, and neither starts nor ends with whitespace |
| AiNaming.StripEmptyIffBlank | rename_screenshot.py:71 | `text.strip() == ""` iff the text is all whitespace |
| AiNaming.ReplaceNewlines | rename_screenshot.py:90 | `replace('\n', '_')` keeps the length and swaps exactly the newlines for `_` |
| AiNaming.GenerateName | rename_screenshot.py:67-94 | blank text gives `document_scan`; otherwise a raising service gives `ai_naming_failed`, and a reply gives that reply stripped with each newline turned into `_`. The name is always a sentinel or trimmed |
| AiNaming.BlankTextNeedsNoService | rename_screenshot.py:71-72 | empty or whitespace-only text gives `document_scan`, whatever the service would do |
| AiNaming.FailingServiceYieldsSentinel | rename_screenshot.py:88-94 | a failing service call gives `ai_naming_failed` |
| AiNaming.OnlyExcerptMatters | rename_screenshot.py:82 | two texts that agree on their first 2000 characters get the same name |
| AiNaming.SentinelsSurviveSanitizing | rename_screenshot.py:133-134 | both fallback tokens pass the sanitiser unchanged |
| TargetName.CandidateInjective | rename_screenshot.py:143-151 | the collision loop tries a different name at every attempt |
| TargetName.TriedBound | rename_screenshot.py:147-151 | if the first n candidates are all taken, the directory has at least n names, so the loop ends |
| TargetName.FreeFrom | rename_screenshot.py:148-151 | searching from attempt k finds a free candidate, and every candidate before it is taken |
| TargetName.FreeAttempt | rename_screenshot.py:147-151 | the chosen attempt is the least one whose name is free |
| TargetName.ChooseTarget | rename_screenshot.py:141-151 | the target is not in the directory, and is the candidate of the least free attempt |
| TargetName.TargetCarriesIndex | rename_screenshot.py:143 | every candidate name carries the index as a recognised prefix iff the index is at most 999 |
| ScreenshotRenamer.Decide | rename_screenshot.py:119-138 | a file halts as already indexed iff it has the prefix; as without text iff it has no prefix and OCR raised or gave `""`; as with an empty name iff it has neither and its generated name sanitises to empty. Otherwise it proceeds with the sanitised generated name, which is non-empty and clean |
| ScreenshotRenamer.Step | rename_screenshot.py:141-159 | a halting file is skipped with its reason. A proceeding file is tried under the first free candidate `{index:03d}_{clean}[_k]{ext}` (every earlier attempt is taken): it is renamed iff `os.rename` to that name succeeds, moving exactly the source there and raising index and count by one; otherwise the failure is logged with that name and the state is unchanged |
| ScreenshotRenamer.Run | rename_screenshot.py:117-159 | one outcome per file. The index and the count each grow by exactly the number of renamed files |
| ScreenshotRenamer.ProcessScreenshots | rename_screenshot.py:96-159 | the final index is `get_next_index` plus the renamed count, and at most every image is renamed |
| ScreenshotProperties.IndexedFileIsNotRead | rename_screenshot.py:119-120 | an indexed name is skipped before OCR, whatever OCR would return |
| ScreenshotProperties.BlankTextIsNotSkipped | rename_screenshot.py:127 | non-empty whitespace-only OCR text proceeds, with the name `document_scan` |
| ScreenshotProperties.ServiceFailureIsNotSkipped | rename_screenshot.py:133-138 | a service failure proceeds, with the name `ai_naming_failed` |
| ScreenshotProperties.StartIsAbove | rename_screenshot.py:104 | the starting index is above the prefix of every indexed name in the folder |
| ScreenshotProperties.StepKeepsIndexAbove | rename_screenshot.py:153-157 | one iteration keeps every recognised prefix in the directory below the running index |
| ScreenshotProperties.StepNeedsNoSuffix | rename_screenshot.py:146-151 | while the prefixes stay below an index of at most 999, a renamed file gets the plain name on the first attempt |
| ScreenshotProperties.RunOutcomes | rename_screenshot.py:117-159 | every file that halts is logged with its reason. Every file that proceeds is renamed or logged as a failed rename |
| ScreenshotProperties.RunIndices | rename_screenshot.py:143-157 | the i-th file, if renamed, is named with the starting index plus the number of files renamed before it |
| ScreenshotProperties.RunDirectory | rename_screenshot.py:154 | the final directory is the old one minus exactly the renamed sources plus exactly the targets. No target clashes with a name that stays |
| ScreenshotProperties.RunTargetsDistinct | rename_screenshot.py:146-154 | no two files of a pass are renamed to the same name |
| ScreenshotProperties.RunKeepsIndexAbove | rename_screenshot.py:117-157 | the whole loop keeps every recognised prefix below the running index |
| ScreenshotProperties.HaltingRunIsIdle | rename_screenshot.py:117-138 | a pass in which every file halts changes nothing and renames nothing |
| ScreenshotProperties.SnapshotFacts | rename_screenshot.py:115 | the snapshot is sorted, has no repeats, and is drawn from the listing |
| ScreenshotProperties.NonImagesUntouched | rename_screenshot.py:108-115 | a name without one of the five extensions is still there after the pass |
| ScreenshotProperties.RunPrefix | rename_screenshot.py:143-157 | while the final index is at most 1000, a renamed file carries a recognised prefix equal to its index |
| ScreenshotProperties.RenamedPrefix | rename_screenshot.py:104-157 | the same for a whole invocation, counting from `get_next_index` |
| ScreenshotProperties.PrefixesFollowNameOrder | rename_screenshot.py:115-157 | of two renamed files, the one earlier in sorted order gets the smaller prefix |
| ScreenshotProperties.RunNeedsNoSuffix | rename_screenshot.py:146-151 | in a folder nobody else writes to, no `_k` suffix is ever needed while the index stays at or below 1000 |
| ScreenshotProperties.RunPlainName | rename_screenshot.py:141-157 | under the same conditions a renamed file is exactly `f"{index:03d}_{clean}{ext}"` |
| ScreenshotProperties.SecondPassHalts | rename_screenshot.py:112-120 | after a pass without failed renames that stays at or below index 1000, every image in the folder halts on a second pass |
| ScreenshotProperties.SecondPassIsIdle | rename_screenshot.py:96-159 | running the script a second time on the result renames nothing and leaves the folder as it was, provided OCR and the service are the same oracles in both passes, the second listing is exactly the folder the first left, no rename of the first pass failed, and the final index is at most 1000 |
| SequentialRenamer.Pass | rename_images_sequentially.py:38-57 | one outcome per image. The counter grows by exactly the number of successful renames |
| SequentialRenamer.RenameImagesSequentially | rename_images_sequentially.py:7-60 | it reports "not a directory" iff the path is not one, and "cannot list" iff listing raises `FileNotFoundError`; any other listing error leaves the function. Otherwise every image is attempted once and the reported total is the number of successes |
| SequentialRenamer.PassNumbers | rename_images_sequentially.py:42-57 | image i is tried under the start counter plus the successes before it, and counts as renamed iff that rename succeeds |
| SequentialRenamer.NumberedFromOne | rename_images_sequentially.py:26-57 | successful renames receive 1, 2, 3, … in processing order |
| SequentialRenamer.ImagesInSortedOrder | rename_images_sequentially.py:29-40 | the attempted files are exactly the names with an image extension, in sorted order |
| SequentialRenamer.NewNameInjective | rename_images_sequentially.py:45 | two new names are equal iff their counters are equal and their extensions are equal |
| SequentialRenamer.DistinctNumbersDistinctNames | rename_images_sequentially.py:45 | different counters never give the same name |
| SequentialRenamer.PassTargetsDistinct | rename_images_sequentially.py:52-55 | with a scheme that tells counters apart, no two successes of a pass share a target |
| SequentialRenamer.TargetsDistinct | rename_images_sequentially.py:38-57 | no two images of a call are renamed to the same name |
| SequentialRenamer.PassKeepsOthers | rename_images_sequentially.py:38-57 | a name the pass does not process is still there afterwards |
| SequentialRenamer.NonImagesStay | rename_images_sequentially.py:40 | names without an image extension are never renamed away. This is about names, not contents: `.png` gets the target `kw_01` with no extension, and on POSIX a rename onto an existing non-image of that name replaces its contents |
| SequentialRenamer.OverwriteLosesAName | rename_images_sequentially.py:52-55 | a successful rename onto an existing different name leaves the folder one name shorter |
| SequentialRenamer.EarlyReturnsRenameNothing | rename_images_sequentially.py:16-36 | both early returns and an escaping listing error happen before any rename, whatever `os.rename` would do |
| FolderCreator.RemoveAll | folder_creator.py:25 | `replace(pattern, "")` never makes a string longer |
| FolderCreator.RemoveAllMissing | folder_creator.py:25 | a string without the pattern's first character is left unchanged |
| FolderCreator.StripZeros | folder_creator.py:25 | `lstrip("0")` cuts off exactly a run of leading zeros, and the result does not start with `0` |
| FolderCreator.StripZerosValue | folder_creator.py:25 | stripping zeros keeps the value, and gives nothing or the canonical `str` of that value |
| FolderCreator.ModuleNumber | folder_creator.py:23-25 | there is a module number iff the base name starts with `module` |
| FolderCreator.ModuleNumberOfDigits | folder_creator.py:22-25 | `module` followed by digits gives `str` of the digits' value |
| FolderCreator.ModuleFiveExample | folder_creator.py:22 | `module05` gives `5` |
| FolderCreator.ModuleZeroExamples | folder_creator.py:25 | `module` and `module00` give `0` |
| FolderCreator.RemoveAllJoin | folder_creator.py:25 | every occurrence of `module` is removed, wherever it stands: removing from `a + "module" + b` is removing from `a` and from `b` |
| FolderCreator.ModuleWordTwiceExample | folder_creator.py:24-25 | `module5module` gives `5` |
| FolderCreator.FolderNameInjective | folder_creator.py:28-32 | different numbers give different folder names, with or without a module number |
| FolderCreator.Missing | folder_creator.py:28-32 | at most `num_folders` names are due for creation |
| FolderCreator.MissingMembers | folder_creator.py:28-42 | a name is due iff it belongs to some i in 1..n and is not already present |
| FolderCreator.MissingInOrder | folder_creator.py:28-39 | due names come in increasing order of i |
| FolderCreator.CreateFrom | folder_creator.py:28-42 | the loop never removes a name, and creates at most one folder per number |
| FolderCreator.CreateFromDir | folder_creator.py:36-39 | the directory gains exactly the folders created |
| FolderCreator.CreateFromSpec | folder_creator.py:27-46 | the loop creates a prefix of the due names, in order. It stops on an exception exactly at the first due name `os.makedirs` refuses, and otherwise creates them all |
| FolderCreator.CreateFolders | folder_creator.py:17-48 | existing names stay, and no more than `num_folders` paths are returned |
| FolderCreator.CreateFoldersSpec | folder_creator.py:17-48 | without an exception, the returned list and the new folders are exactly the missing ones, in i order. After one, `[]` is returned while the folders made before it stay; it happens at the first missing name `os.makedirs` refuses, every earlier one having been accepted |
| FolderCreator.Main | folder_creator.py:59-70 | a count of 0 or less is rejected first, then a missing path. Folders are created only when both checks pass |
| FolderCreator.RejectionCreatesNothing | folder_creator.py:59-65 | a rejected call does not depend on the directory or on `os.makedirs` |

## Left out

- OCR (Tesseract and PIL) and the generative service are oracle parameters. The prompt's wording and the quality of the names it yields cannot be stated (rename_screenshot.py:9-11, 55-65, 74-86, 89).
- The module-level configuration is environment plumbing: the Tesseract path, and reading `GEMINI_API_KEY` with an exit when it is missing (rename_screenshot.py:16-25).
- Argument parsing, all printed output, and the `isdir` check in the screenshot script's `main` are left out (rename_screenshot.py:169-180, rename_images_sequentially.py:62-75). `folder_creator.py`'s checks at lines 59-65 are kept as `FolderCreator.Main`.
- Path handling is not modelled. `os.path.join`, `abspath` and `basename` become plain names: the base directory's name is an input, and `create_folders` returns folder names rather than joined paths.
- `os.makedirs` creating intermediate directories is not modelled. This matters only when a prefix contains a path separator.
- ScreenshotRenamer.ProcessScreenshots: it starts from a listing that succeeded. `process_screenshots` catches no error from `os.listdir` (rename_screenshot.py:36 through line 104, and line 115); such an error leaves the function before any rename, and the model has no case for it.
- The order of `os.listdir` is not modelled, and sorting is not computed. A listing is taken as already strictly sorted (a precondition), in Python's order on `str`: lexicographic by code point (`FileNames.Less`).
- Sanitizer.Sanitize: characters are ASCII only. `\s` is tab through carriage return, 0x1C-0x1F and space. `\w` is ASCII letters, digits and `_`. Python's Unicode-aware classes and `str.lower` would also keep and lower-case non-ASCII letters, which the model drops.
- SequenceIndex.HasIndexPrefix and SequenceIndex.NextIndex: digits are `0`-`9` only. Python's `\d` and `int()` also accept other decimal digits, so `١٢٣_a.png` counts as index 123 in the script and as unindexed in the model.
- AiNaming.Strip, Ascii.IsBlank and AiNaming.GenerateName: whitespace is the ASCII set above. `str.strip()` also removes U+00A0, U+3000 and the other Unicode spaces, so a reply or an OCR text made of those is blank in the script and not in the model.
- FileNames.FilterByExtension: `Lower` maps only `A`-`Z`. `str.lower()` also maps non-ASCII letters, but none of them lower-cases to text ending in one of the listed extensions, so the same names pass the filter.
- The generative service is a function of the excerpt. Within one pass, two files whose texts share the first 2000 characters get the same reply; a real service may answer them differently.
- Whether `os.rename` onto an existing name overwrites or fails depends on the platform, so it is an oracle. A success is modelled as replacing the target, as on POSIX.
- Races with other processes writing to the folder are not modelled. The statements about collisions assume no one else changes the directory between the snapshot and each rename.
- The `splitext` leading-dot corner is stated in `FileNames.SplitExt`'s contract (leading dots never start an extension), but its consequence is not proved separately: a file named `.png` has extension `""`, yet it passes the lower-cased `endswith` filter.
- `check_if_installed.py` is not part of this model: it only tests membership in pip's package list and prints.
- The collision suffix beyond index 999 is not described further. Once the index reaches 1000, later runs do not recognise the new names (`SequenceIndex.IndexFieldRecognised`), so the idempotence lemmas require the index to stay at or below 1000.
