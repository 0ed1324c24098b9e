# AutoCrawler, modelled in Dafny

AutoCrawler reads a list of search keywords from `keywords.txt`. For every keyword
and every enabled source (Google, Naver, as thumbnails or at full resolution), it
collects image links and downloads each one into
`{download_path}/{keyword}/{site}_{index:04}.{ext}`. Finally it checks the result
for imbalance: a keyword directory holding fewer than half the average number of
files is offered for removal.

This project models the `AutoCrawler` class and the `Sites` helper of `main.py`
and proves properties of that model.

- `wrappers.dfy`: the `Option` type. It stands for Python's `None`.
- `text.dfy`: the parts of Python's `str` the crawler relies on:
  - `split` and `join` on one character, and the text after the last dot;
  - the `<` order used by `sorted`;
  - `lower` on ASCII letters;
  - `str(int)`, `int(str)` and `zfill`.
- `sites.dfy`: the site codes, `Sites.get_text`, `Sites.get_face_url`, and the site name written into file names.
  - `get_face_url` is modelled as written. The test `code == Sites.GOOGLE or Sites.GOOGLE_FULL` is always true, because the constant `3` on its own is truthy.
  - So every code gets Google's face suffix `&tbs=itp:face`, and the Naver suffix is never returned.
- `keywords.dfy`: `get_keywords`.
  - The `utf-8-sig` codec drops one leading byte-order mark. Text mode's universal newlines turn `\r\n` and a lone `\r` into `\n`.
  - The text is then split on `\n`, the empty lines are dropped, and the rest are deduplicated and sorted.
  - The file is written back one keyword per line.
  - Re-saving is idempotent, except whenever the smallest keyword begins with a byte-order mark. Examples are a file that starts with two marks, or a mark that opens the line sorting first. The next load drops that mark, and the model exhibits one such file.
- `naming.dfy`: `get_extension_from_link` and the download file name, whose index field is `str(index).zfill(4)`.
- `download.dfy`: `download_images` as the map of files it writes.
  - Each collected link carries what fetching it does: `requests.get` raises, opening the file raises (and the saver swallows it), or the body is saved.
  - A failure at one link leaves the other links' files alone.
- `filesystem.dfy`: the filesystem as directories plus files with contents. It covers `os.makedirs`, `shutil.rmtree`, `all_dirs` and the file count.
- `planning.dfy`: the settings, and the task list `do_crawling` builds.
- `dispatch.dfy`: `download_from_site` for one task, and tasks run one after another.
  - Collecting links drives a browser, so the collector is a parameter: a function from the call made (collector, keyword, suffix) to the links, or to `None` when the call raises.
  - A raising collector ends the task without touching the disk.
  - An unknown site code downloads an empty list, which still makes the keyword directory.
- `audit.dfy`: the two passes of `imbalance_check` over the counts.
  - The test `n_files < avg * 0.5` is computed once on the reals, as the source accumulates it.
  - It is proved equal to the exact-integer test `2 * n_files * len < total`.
- `crawler.dfy`: the `AutoCrawler` class itself. Its fields are the settings, the directories, the files and the text of the keyword file. Its methods update them in place and are proved against the functions above.

The worker pool of `do_crawling` is modelled as the tasks run one after another. A
separate proof shows that the tasks planned from distinct keywords never write the
same path string. So, among the sequential runs, every file holds what its single
task wrote, whichever order the tasks run in. Two things lie outside that result,
both listed under "## Left out": paths are compared as strings, not as places on a
real disk, and tasks that run at the same time can race in `make_dir`.

Three behaviours of the code are worth knowing, and the model follows the code in each:

- Face mode: `get_face_url` has a branch returning Naver's suffix (main.py:47-48). The test before it is always true, so that branch is never reached, and every code gets Google's suffix.
- A collector that raises: the exception is caught around the whole task (main.py:161-190), so `download_images` is skipped and no keyword directory is made. Only an unknown site code gets the empty list (main.py:180-182), and with it the directory.
- Extensions: the extension is the text after the URL's last `.` (main.py:95-98), so a query string such as `x.png?s=1` falls back to `jpg`.

## Model

| member | source | states |
|---|---|---|
| Sites.GetText | main.py:33-41 | Google's two codes give `google`, Naver's two give `naver`, and any other code gives `None` (each as an if-and-only-if). |
| Sites.GetFaceUrl | main.py:44-48 | Every code, Naver's included, gets Google's face suffix. The Naver suffix is never returned. |
| Sites.SiteName | main.py:157 | The file-name prefix is the site's name for a site code, `"None"` for any other code, and never holds `/`. |
| Sites.SiteNames | main.py:33-41 | A thumbnail code and its full-resolution code share a name, Google and Naver differ, and no name holds `/`. |
| Text.Split | main.py:95 | `str.split` gives at least one piece, no piece holds the separator, and joining the pieces gives back the text. |
| Text.SplitOfJoin | main.py:120 | Splitting a join of separator-free pieces gives back the pieces. |
| Text.LastPieceIsAfterLast | main.py:95-98 | The last piece of `split('.')` is the text after the last `.`, or the whole text when it has none. |
| Text.Less | main.py:122 | Specified by Text.LessIrreflexive, Text.LessTransitive, Text.LessTotal and Text.LessAsymmetric: a strict total order, which is what `sorted` needs. |
| Text.LessIrreflexive | main.py:122 | No string sorts before itself. |
| Text.LessTransitive | main.py:122 | Python's string order is transitive. |
| Text.LessTotal | main.py:122 | Of two different strings, one sorts before the other. |
| Text.LessAsymmetric | main.py:122 | Two strings never sort before each other. |
| Text.Lower | main.py:98 | Specified by Naming.UpperCaseJpg and Naming.ExtensionOfLastDot: the suffix is compared lower-cased. |
| Text.NatToString | main.py:149 | At least one character, digits only. Text.NatToStringRoundTrip states it reads back as the number. |
| Text.ZFill | main.py:149 | Specified by Text.LeadingZerosValue and Naming.IndexTextReadsBack: padded to at least the width with zeros that keep the value. |
| Text.NatToStringRoundTrip | main.py:149 | `int(str(n)) == n` for every non-negative `n`. |
| Text.LeadingZerosValue | main.py:149 | The zeros `zfill` adds do not change the number a digit string reads as. |
| Keywords.NonEmpty | main.py:121 | The filter keeps exactly the lines that are not empty. |
| Keywords.Newlines | main.py:118-119 | The text read in text mode never holds `\r`. |
| Keywords.Decode | main.py:118-119 | The decoded text never holds `\r`. Keywords.BomDropped states that one leading mark is dropped. Keywords.NewlinesOfLineEnd and Keywords.LineEndsLoadAlike state that `\r\n` and `\r` read as `\n`. |
| Keywords.NewlinesOfLineEnds | main.py:118-119 | A text written with `\r\n` or with lone `\r` line ends reads back as the same text written with `\n`. |
| Keywords.LineEndsLoadAlike | main.py:116-122 | A keyword file loads the same keywords whether its lines end in `\n`, `\r\n` or `\r`. |
| Keywords.BomDropped | main.py:118-122 | One leading byte-order mark makes no difference to the keywords, when the text after it does not start with another. |
| Keywords.GetKeywords | main.py:116-122 | Specified by Keywords.KeywordsCanonical: the loaded keywords are strictly sorted, and are exactly the non-empty lines of the decoded text. |
| Keywords.Serialize | main.py:127-129 | Specified by Keywords.SerializeIsJoin and Keywords.ResaveIsIdempotent: the keywords joined by `\n` with a final line end, which loads back as the same keywords. |
| Keywords.NewlinesKeepsPlainText | main.py:118-119 | Text without `\r` is read back unchanged. |
| Keywords.NewlinesAppend | main.py:118-119 | Two texts read one after the other read as each alone, unless a `\r` ending the first meets a `\n` opening the second. |
| Keywords.NewlinesOfLineEnd | main.py:118-119 | Each `\n`, `\r\n` or lone `\r`, anywhere in a text that mixes them, reads as one `\n` between the readings of the text before and after it. |
| Keywords.Insert | main.py:122 | Specified by Keywords.InsertKeepsOrder: a strictly sorted list stays strictly sorted, with exactly the new value added. |
| Keywords.SortedSet | main.py:122 | Specified by Keywords.SortedSetIsSortedSet and Keywords.SortedUnique: the one strictly sorted list of the lines' values, as `sorted(set(lines))` gives. |
| Keywords.InsertKeepsOrder | main.py:122 | Inserting into a strictly sorted list keeps it strictly sorted, and adds exactly the new value. |
| Keywords.SortedSetIsSortedSet | main.py:122 | `sorted(set(lines))` is strictly sorted and holds exactly the lines' values. |
| Keywords.KeywordsCanonical | main.py:116-122 | The loaded keywords are strictly sorted and hence distinct. They hold no empty string and no line end. They are exactly the non-empty lines of the decoded file, untrimmed. |
| Keywords.SortedUnique | main.py:122 | Two strictly sorted lists with the same values are equal, so `sorted(set(...))` is determined by the set. |
| Keywords.SerializeAppend | main.py:128-129 | Writing one more keyword appends `keyword + "\n"`. |
| Keywords.SerializeIsJoin | main.py:127-129 | The re-saved file is the keywords joined by `\n` with a final line end. |
| Keywords.ResaveIsIdempotent | main.py:116-131 | Loading the re-saved file gives the same keywords, and re-saving them gives the same file, unless the first keyword starts with a byte-order mark. |
| Keywords.SerializedChar | main.py:127-129 | Every character of the re-saved file is a line end or a character of a keyword. |
| Keywords.DoubleBomIsNotAFixpoint | main.py:118-129 | A file starting with two byte-order marks loads as one keyword that starts with a mark. After the re-save, the next load drops that mark. |
| Naming.GetExtensionFromLink | main.py:94-106 | The extension is `jpg`, `gif`, `png` or the default. |
| Naming.ExtensionOfLastDot | main.py:94-106 | The extension is decided by the lower-cased text after the last `.`: `jpg` and `jpeg` give `jpg`, `gif` gives `gif`, `png` gives `png`, and anything else gives the default. |
| Naming.ExtensionIsImageType | main.py:148 | With the default `jpg`, the extension is one of three and holds neither `.` nor `/`. |
| Naming.UpperCaseJpg | main.py:98-100 | Any link ending in `.JPG` is saved as `jpg`: the suffix is compared lower-cased. |
| Naming.BmpIsDefault | main.py:105-106 | Any link ending in `.bmp` gets the default. |
| Naming.QueryStringIsDefault | main.py:95-106 | A query string after `.png` hides it, and the default is used. |
| Naming.KeywordDir | main.py:141 | Specified by Naming.ImagePathInKeywordDir and FileSystem.KeywordDirIsChild: the keyword's directory under the download directory, also the path tested at main.py:201-202. |
| Naming.ImageType | main.py:98-106 | Specified by Naming.ExtensionOfLastDot, Naming.ExtensionIsImageType and Naming.ImageTypeIsPlain: `jpg` and `jpeg` give `jpg`, `gif` and `png` themselves, anything else the default. |
| Naming.IndexText | main.py:149 | Specified by Naming.IndexTextReadsBack: at least four digits reading back as the index. |
| Naming.FileName | main.py:149 | Specified by Naming.FileNameInjective and Naming.FileNameHasNoSlash: no `/`, and it determines site name, index and extension. |
| Naming.ImagePath | main.py:141-149 | Specified by Naming.ImagePathInKeywordDir and Naming.ImagePathInjective: strictly inside the keyword directory, and determines keyword, site name, index and extension. |
| Naming.FileNameHasNoSlash | main.py:149 | A file name built from a site name and an extension without `/` holds no `/`. |
| Naming.IndexTextReadsBack | main.py:149 | The index field has at least four digits and reads back as the index. |
| Naming.ImagePathInKeywordDir | main.py:141-149 | Every image file lies strictly inside its keyword's directory. |
| Naming.ImagePathInjective | main.py:149 | Under one download directory, a file name determines its keyword, site name, index and extension. |
| Naming.FileNameInjective | main.py:149 | The last path component determines the site name, index and extension. |
| Download.Writes | main.py:144-154 | Specified by Download.WritesFromSavedLinks, Download.SavedLinkWritten and Download.WritesCount: one file per saved link, holding its body. |
| Download.ImageWrites | main.py:144-154 | Specified by Download.FailureIsolation and Download.ImageWritesFromSavedLinks: the files `download_images` writes, one per saved link, under its numbered name. |
| Download.WritesFromSavedLinks | main.py:144-154 | Every written file is named after a link that was fetched and saved. |
| Download.SavedLinkWritten | main.py:144-154 | A saved link's file holds its body, and no other link overwrites it. |
| Download.WritesCount | main.py:144-154 | There is one file per saved link. |
| Download.ImageWritesSnoc | main.py:144-154 | One more link adds its file when it is saved, and nothing otherwise. |
| Download.FileNamerInjective | main.py:148-149 | Links with different indices never share a file name. |
| Download.ImageWritesFromSavedLinks | main.py:140-154 | Each file `download_images` writes belongs to a saved link, is named after that link's index, and lies inside the keyword directory. |
| Download.FailureIsolation | main.py:144-154 | Each saved link has its own file holding its body. A link whose fetch or save raised has no file under its index, whatever the extension. There are exactly as many files as saved links. |
| Download.ImageWritesDisjoint | main.py:149 | Tasks that differ in keyword or site name write disjoint sets of files. |
| FileSystem.Exists | main.py:112 | Specified by FileSystem.DirMade and Planning.SkipMeansNoTask: `os.path.exists`, which decides whether `make_dir` acts and whether a keyword is skipped. |
| FileSystem.Ancestry | main.py:113 | The directories `os.makedirs` creates: the path and every prefix ending before one of its `/`, all on the path's way. |
| FileSystem.DirMade | main.py:109-113 | When nothing exists at the path, the directory and every prefix ending before one of its `/` exist afterwards, and every new directory is on the path's way. Otherwise nothing changes. Files are never touched. |
| FileSystem.DirMadeIdempotent | main.py:109-113 | Making a directory twice is making it once. |
| FileSystem.TreeRemoved | main.py:264 | Exactly the directories and files inside the removed tree disappear, and the other files keep their contents. |
| FileSystem.TreesRemoved | main.py:263-264 | After removing several trees, exactly what lies in none of them is left, with its contents. |
| FileSystem.SubDirs | main.py:74-81 | Specified by FileSystem.KeywordDirIsChild and Crawler.AutoCrawler.ListDirCounts: the existing directories directly inside, each listed once. A keyword directory is a direct child of the download directory exactly when the keyword is non-empty and holds no `/`. |
| FileSystem.FileCount | main.py:83-91 | Specified by FileSystem.ImagePathIsChild and Dispatch.SavedFilesAreCounted: every image file of a keyword is counted in its directory. |
| FileSystem.KeywordDirIsChild | main.py:74-80 | A keyword directory is a direct child of the download directory exactly when the keyword is non-empty and holds no `/`. |
| FileSystem.ImagePathIsChild | main.py:83-90 | Every image file lies directly inside its keyword directory, so it is counted. |
| FileSystem.SiblingTreesDisjoint | main.py:263-264 | Removing one listed directory keeps everything inside another one. |
| Planning.Planned | main.py:198-216 | Specified by Planning.PlannedCount, Planning.PlannedMembers, Planning.PlannedCodes and Planning.PlannedDistinct. |
| Planning.Skipped | main.py:201-202 | Specified by Planning.SkipMeansNoTask: with `skip`, a keyword whose directory exists gets no task. |
| Planning.SourceCodes | main.py:206-216 | One code per enabled source, and each is a site code. Thumbnail codes appear exactly without `full_resolution`, full-resolution codes exactly with it. Google comes before Naver. |
| Planning.TasksFor | main.py:206-216 | One task per code, in order, all for the keyword. |
| Planning.PlannedCount | main.py:200-216 | The task count is the number of kept keywords times the number of enabled sources. |
| Planning.PlannedMembers | main.py:200-216 | A task is planned exactly for a listed, non-skipped keyword and an enabled source at the configured resolution. |
| Planning.PlannedCodes | main.py:206-216 | Every planned code is a site code, and it is a full-resolution code exactly when `full_resolution` is set. |
| Planning.PlannedDistinct | main.py:200-216 | With distinct keywords, no two planned tasks share both keyword and site name. |
| Planning.SkipMeansNoTask | main.py:201-204 | A keyword whose directory exists under `skip` gets no task. Without `skip`, every keyword gets every enabled source. |
| Dispatch.AddUrl | main.py:158 | In face mode the suffix is Google's for every code. Otherwise it is the empty string. |
| Dispatch.Request | main.py:164-182 | Each of the four codes calls its own collector with the keyword and the suffix. Full-resolution collectors are called exactly for full-resolution codes, Google's collectors exactly for Google's codes. Any other code calls no collector. |
| Dispatch.TaskLinks | main.py:161-190 | An unknown code gives no links. A site code gives the collector's answer, which is `None` when it raises. |
| Dispatch.ImagesDownloaded | main.py:140-154 | Specified by Dispatch.RunTaskEffect and Dispatch.SavedFilesAreCounted: the keyword directory is made, and exactly the files of the saved links are added. |
| Dispatch.RunTask | main.py:156-190 | Specified by Dispatch.RunTaskEffect. |
| Dispatch.RunTaskEffect | main.py:156-190 | One task adds exactly its writes to the files, and only adds directories on the way to its keyword directory. Whenever the links were collected, the keyword directory exists afterwards. A raising collector changes nothing. An unknown code writes no file. |
| Dispatch.TasksRun | main.py:218-221 | Specified by Dispatch.TasksRunFiles and Dispatch.PlannedTasksOrderFree: the tasks run one after another add the union of their writes and remove no directory. |
| Dispatch.StepsFiles | main.py:218-221 | When each step adds its task's files and removes no directory, the steps together add the union of the files. |
| Dispatch.UnionOrderFree | main.py:218-221 | With pairwise disjoint writes, each file of the union holds what its one task wrote, and every file of the union was written by a task. |
| Dispatch.TasksRunFiles | main.py:218-221 | Running the tasks adds their files to the disk and removes no directory. |
| Dispatch.TaskWritesDisjoint | main.py:149 | Tasks with different keyword or site name write disjoint files. |
| Dispatch.RunWritesOrderFree | main.py:218-221 | When no two tasks share keyword and site name, each file holds what its one task wrote, whatever the order. |
| Dispatch.PlannedTasksOrderFree | main.py:195-221 | The tasks `do_crawling` plans from distinct keywords can run in any order. |
| Dispatch.SavedFilesAreCounted | main.py:140-154 | After a task whose links were collected, its keyword directory counts at least one file per saved link. |
| Audit.Total | main.py:237-239 | Specified by Audit.AverageSumIsMean, Audit.TotalAtMost and Audit.TotalOfUniform: the sum of the counts. |
| Audit.TooSmall | main.py:245 | Specified by Audit.HalfAverage: the integer form of `n_files < avg * 0.5`. |
| Audit.AverageSum | main.py:237-239 | Specified by Audit.AverageSumIsMean: the total divided by the number of directories. |
| Audit.Below | main.py:242-246 | Specified by Audit.BelowMembers: the listed entries that are too small, in order. |
| Audit.Flagged | main.py:242-246 | Specified by Audit.FlaggedEntries, Audit.LargestNeverFlagged and Audit.BalancedNeverFlagged. |
| Audit.AverageSumIsMean | main.py:237-239 | The running sum of `n_files / len` is the total divided by the number of directories. |
| Audit.HalfAverage | main.py:245 | `n_files < avg * 0.5` holds exactly when `2 * n_files * len < total`. |
| Audit.FindTooSmall | main.py:237-246 | The two passes give exactly the entries below half the average, in listing order. |
| Audit.BelowMembers | main.py:244-246 | An entry is kept exactly when it is listed and too small, and there are no more than the listed ones. |
| Audit.FlaggedEntries | main.py:242-246 | The flagged entries are exactly the listed entries below half the average. |
| Audit.LargestNeverFlagged | main.py:242-246 | An entry with the largest count is never flagged, so a non-empty listing is never flagged in full. |
| Audit.BalancedNeverFlagged | main.py:242-246 | When all directories hold the same number of files, nothing is flagged. |
| Audit.TotalAtMost | main.py:237-239 | The total is at most the number of entries times the largest count. |
| Audit.TotalOfUniform | main.py:237-239 | When every count is the same, the total is that many times the count. |
| Audit.BelowMissesOne | main.py:244-246 | An entry that is not too small keeps the filter from taking every entry. |
| Audit.MaxEntry | main.py:237-246 | The result is a listed entry with the largest count. |
| Audit.OneSmallDirectory | main.py:237-246 | With 10, 10 and 2 files, only the directory with 2 files is flagged. |
| Audit.DirsOf | main.py:263-264 | The directories of the entries, in order. |
| Audit.RemovalKeepsUnflagged | main.py:257-264 | Removing the flagged directories keeps every file of every listed, unflagged directory, with its contents. |
| Audit.OtherListedTree | main.py:233-235 | Two different entries of a listing have disjoint trees. |
| Crawler.AutoCrawler.constructor | main.py:52-72 | Keeps the settings and adds the download directory with its ancestors. The files and the keyword file are unchanged. |
| Crawler.AutoCrawler.LoadKeywords | main.py:116-131 | Returns the keywords of the old keyword file and rewrites it as those keywords, one per line. Directories and files are unchanged. |
| Crawler.AutoCrawler.MakeDir | main.py:109-113 | The new state is `make_dir` of the old one. |
| Crawler.AutoCrawler.SaveImageToFile | main.py:133-138 | A saved body is stored at the path. A failed save changes nothing. |
| Crawler.AutoCrawler.DownloadImages | main.py:140-154 | Makes the keyword directory, then adds exactly the files of the saved links under their numbered names. |
| Crawler.AutoCrawler.DownloadFromSite | main.py:156-193 | The new state is what the task does to the old one. |
| Crawler.AutoCrawler.PlanTasks | main.py:198-216 | The tasks are the planned tasks for the keywords, judged against the paths that exist before any download. |
| Crawler.AutoCrawler.NewTasks | main.py:206-216 | The tasks appended for a kept keyword are its tasks for the enabled sources. |
| Crawler.AutoCrawler.RunTasks | main.py:218-221 | The new state is the tasks run in order on the old one. |
| Crawler.AutoCrawler.RemoveTree | main.py:264 | The new state is the old one with the tree removed. |
| Crawler.AutoCrawler.ListDirCounts | main.py:231-235 | Lists every directory directly inside the download directory once, with its file count. |
| Crawler.AutoCrawler.ImbalanceCheck | main.py:228-269 | Lists the counts and flags exactly the entries below half the average. It removes their trees exactly when there is at least one and the answer is `y`, and leaves the state as it was otherwise. |
| Crawler.AutoCrawler.DoCrawling | main.py:195-226 | Loads and re-saves the keywords, plans the tasks, runs them, then runs the imbalance check on the result, with the whole final state stated. |
| Crawler.ListingSnoc | main.py:233-235 | Listing one more unlisted directory keeps the listing free of duplicates and its counts correct. |

## Left out

- HTTP: `requests.get` is not modelled. Each link instead carries what fetching it does. A response with an error status is a saved body like any other, which is also what the source does.
- `CollectLinks`: the browser-driven collectors are not part of this model. They are the `Collector` parameter.
- The `CollectLinks()` constructor: it runs outside the `try` in `download_from_site` (main.py:159). If it raises, the exception leaves the task. `map_async` (main.py:219) hands the tasks to the workers in chunks, and one exception ends the whole chunk, so the later tasks of that chunk are never run. The failure itself is dropped, because the result of `map_async` is never read. The model has no constructor failure, so every task runs, and these lost tasks are not modelled.
- Concurrency: the `n_threads` process pool is modelled as the tasks run sequentially. The order-freedom lemmas cover any order of whole tasks, but not tasks that interleave. `n_threads` itself plays no part.
- The `make_dir` race: `make_dir` checks `os.path.exists` and then calls `os.makedirs` without `exist_ok` (main.py:112-113). The Google and Naver tasks of one keyword can run at the same time, both see the directory missing, and the second `os.makedirs` raises `FileExistsError`. The handler at main.py:189-190 swallows it, and that task downloads nothing. In the sequential model the second task finds the directory and goes on.
- Path normalisation: paths are compared as strings. They are not normalised and not case-folded. So `cat`, `cat/` and `./cat`, or `Cat` and `cat` on a case-insensitive disk, are different keywords with different tasks, yet they write the same real files. Download.ImageWritesDisjoint and Dispatch.PlannedTasksOrderFree hold for path strings. They hold on a real disk only when distinct keywords name distinct directories there.
- Output: `print` and the progress lines are left out.
- Command line: the `argparse` handling under `__main__` is left out.
- The removal prompt: `input()` is the `answer` parameter.
- The working directory: `os.getcwd()` is left out, and paths are relative strings. An absolute `download_path` is not distinguished.
- Keyword-file I/O: `keywords.txt` is a string field holding its decoded characters. A missing file, a decoding error and a failing write are not modelled. Writing uses `utf-8`, so no byte-order mark is written.
- Written line ends: the re-save opens the file in text mode (main.py:127), so each `\n` is written as `os.linesep`, which is `\r\n` on Windows. The model writes `\n`. Keywords.LineEndsLoadAlike shows the next load reads the same keywords either way.
- Naming.GetExtensionFromLink: `str.lower` is modelled on ASCII letters only. Other characters are kept as they are.
- Text.ZFill: sign handling is not modelled. Indices are never negative.
- Crawler.AutoCrawler.SaveImageToFile: a failure in the middle of `copyfileobj` may leave a partial file behind. The model has only "saved with the body" or "nothing written".
- FileSystem.DirMade: if a file sits where a parent directory should go, `os.makedirs` raises and the task ends. The model adds the directories anyway. Directories that exist only as files are not modelled.
- FileSystem.FileCount: `all_files` walks the whole tree but keeps only names that exist directly inside the directory. So a nested file with the same name as a direct file is counted again. The model counts only the direct files, which is the same whenever the keyword directories have no subdirectories, as the crawler makes them.
- Audit.FindTooSmall: the average is accumulated on exact reals rather than on floating point, so rounding at the `avg * 0.5` boundary is not modelled.
- Listing order: `os.listdir` order is unspecified. `ListDirCounts` lists the directories in some order, and the contracts hold for every order.
