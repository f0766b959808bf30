# sorter — a verified model of the file classification pass

The sorter distributes files into category folders. A destination folder
holds one subfolder per category. The part of a subfolder's name after its
first underscore is the category's keyword (`01_invoice` → `invoice`). A
name with no underscore is its own keyword. Every regular file of the
source folder whose name contains a subfolder's keyword goes into that
subfolder: it is copied, or moved (copied, then removed from the source).
The number of files sent under each keyword is counted. One log line per
keyword is written in the order the keywords were first counted:
`В папку "<keyword>" <operation> <count> файлов`.

The window application (`sorter_new.py`) offers a copy pass and a move
pass. Each is skipped unless both paths are directories. The stand-alone
script (`sorter.py`) runs one move pass from `in` into `out`.

Modules:

- `Keywords`: the keyword a subfolder name yields, and substring matching.
- `Tallies`: the insertion-ordered counter of transfers per keyword.
- `LogFormat`: log lines, with a parser that inverts them.
- `FileSystem`: directories as maps from names to entries.
- `Classify`: the reference definition of a pass, as pure functions.
  `Transfers` gives the (file, subfolder) pairs the loops visit, in order.
  `Replay` performs them in order and stops at the first copy call whose
  source file is gone. Lemmas then state what a copy pass and a move pass
  do to both directories.
- `Mover`: the application's passes, as methods of a `FileMover` object.
  Its fields are the two directories, and the loops are proved against
  `Classify`.
- `Sorter`: the script's pass.

Directory listings are inputs to the passes (`srcOrder`, `destOrder`): any
order the operating system returns, with each name exactly once. The
source is listed once, before the loop. The destination is listed again
for every file, but the pass never changes its top-level entries.

In move mode, a file whose name contains the keywords of two subfolders is
moved into the first of them. The next copy call then finds no source file
and raises, so the pass ends with no log written. The model keeps this
behaviour as the `Aborted` outcome. Both directories are then left exactly
as the reference replay leaves them. The pass stops at the first transfer,
in visit order, whose file an earlier transfer already moved away
(`Classify.MovePassCompletes`, `Classify.MovePassAbort`, `Mover.MoveOutcome`).

## Model

| member | source | states |
|---|---|---|
| Keywords.SplitOnce | sorter_new.py:106 | splitting at the first separator gives one part (the whole name) exactly when the separator is absent. Otherwise it gives two parts: a first part free of the separator, and a rest, that rebuild the name around it |
| Keywords.Keyword | sorter_new.py:106-107 | a name without `_` is its own keyword. Otherwise the name is an underscore-free prefix, `_`, then the keyword |
| Keywords.KeywordAfterFirstUnderscore | sorter.py:28-29 | for any underscore-free prefix `p`, the keyword of `p_k` is exactly `k`, even when `k` has underscores of its own |
| Keywords.Contains | sorter_new.py:110 | true exactly when the keyword occurs at some position of the file name |
| Keywords.EmptyKeywordMatchesAll | sorter.py:32 | the empty keyword (a subfolder named `_` or `x_`) matches every file name |
| Tallies.Bump | sorter_new.py:113 | the counter for the key goes up by one, starting from zero when it was absent. A new key is appended to the key order and an existing one keeps its place. A well-formed tally stays well-formed |
| Tallies.BumpOthers | sorter_new.py:113 | counting one keyword leaves every other keyword's presence and count as they were |
| Tallies.TallyOf | sorter_new.py:94 | counting a sequence of keywords from the empty dictionary yields a well-formed tally: distinct keys in the key order, and exactly those keys have a count |
| Tallies.TallyCounts | sorter_new.py:144 | a keyword is in the tally exactly when it was counted, and its count is the number of times it was counted |
| Tallies.TallyOrder | sorter.py:34 | the keys are in order of first occurrence, as the insertion order of the dictionary keeps them |
| Tallies.TallyTotal | sorter.py:15 | the counts add up to the number of transfers |
| LogFormat.DecimalString | sorter_new.py:158 | the count is written as a non-empty run of digits with no leading zero |
| LogFormat.DecimalRoundTrip | sorter_new.py:158 | reading the written count back gives the count |
| LogFormat.LogLine | sorter_new.py:158 | a line opens with `В папку "` and the keyword verbatim, and closes with a digit of the count, then ` файлов` and a newline |
| LogFormat.LogLines | sorter_new.py:157 | one log line per tally key |
| LogFormat.LogLineRoundTrip | sorter_new.py:158 | a log line can be read back into exactly its keyword and count, whatever characters the keyword holds |
| LogFormat.LogRendersTally | sorter.py:40-42 | the i-th log line reads back as the i-th key of the tally with its count |
| Classify.MatchesSpec | sorter_new.py:101-110 | the inner loop for one file yields the transfers of that file to exactly the listed subfolders whose keyword it contains, each once |
| Classify.TransfersSpec | sorter_new.py:96-110 | the two loops yield exactly the pairs of a listed regular file and a listed subfolder whose keyword the name contains, without repetition |
| Classify.TransfersOrder | sorter_new.py:96-110 | the transfers come in the loops' visit order: by the file's place in the source listing, then by the subfolder's place in the destination listing |
| Classify.MatchesOrder | sorter_new.py:101-110 | the transfers of one file come in destination listing order, each to a listed subfolder |
| Classify.Step | sorter_new.py:141-143 | one copy call fails exactly when the source file is not a regular file any more, and then changes nothing. Otherwise a move removes the file from the source and a copy keeps it, and a subfolder target receives the file's contents under its name with its other files unchanged |
| Classify.KeywordsOfSpec | sorter_new.py:113 | the counted keys are the transfers' keywords, one per transfer, in transfer order |
| Classify.CopyReplay | sorter_new.py:112 | copy calls on files from the source never fail and never change the source |
| Classify.MoveReplay | sorter_new.py:142-143 | copy-then-remove steps all succeed exactly when no file is transferred twice. The source then loses exactly the transferred files |
| Classify.ReplayStops | sorter_new.py:142 | once a copy call has failed, the later transfers change nothing |
| Classify.CopyPassEffect | sorter_new.py:88-116 | a copy pass never fails and leaves the source unchanged. Each subfolder ends with its old files plus every matching source file, carrying that file's contents |
| Classify.MovePassCompletes | sorter_new.py:118-147 | a move pass completes exactly when no regular file matches two subfolders |
| Classify.MovePassEffect | sorter_new.py:126-144 | after a completed move pass, a regular file has left the source exactly when it matched a subfolder, and every matching subfolder received it |
| Classify.MovePassFrame | sorter_new.py:129 | a move pass never touches entries that are not regular files. It only removes source entries and keeps subfolders as subfolders |
| Classify.MovePassAbort | sorter.py:33 | an aborted move pass stopped at a file that matched a second subfolder and was already moved away. It is the first transfer whose file an earlier transfer moved: the transfers before it are all distinct, their files have left the source, their subfolders received them, and nothing else changed |
| Classify.ReplayFailureAt | sorter_new.py:142 | a failed replay fails at one transfer: every earlier step succeeded, this one found its source file gone, and the state is the one before it |
| Classify.MoveAbortState | sorter_new.py:142-143 | when moving files from the source fails, it fails at the first transfer of an already moved file, with exactly the earlier transfers performed |
| Mover.FileMover.CopyFiles | sorter_new.py:88-116 | skipped unless both paths are directories. Otherwise the source is unchanged, the subfolders received their files, and the log renders the tally of the transfers |
| Mover.FileMover.MoveFiles | sorter_new.py:118-147 | skipped unless both paths are directories. Otherwise it ends as `MoveOutcome` states: never skipped; both directories as the reference replay leaves them; entries other than regular files untouched; completed with the tally's log exactly when no file matches two subfolders, each matching file then gone from the source and present in each matching subfolder; otherwise aborted, without a log, at the first transfer of an already moved file |
| Mover.FileMover.Pass | sorter_new.py:93-116 | the loops leave both directories as the reference replay of the transfers does. They stop at its failure, or log the tally of the transfers' keywords |
| Mover.FileMover.ClassifyFile | sorter_new.py:131-144 | the inner loop over the subfolders performs exactly the matches of one file, and counts them |
| Mover.FileMover.VisitFolder | sorter_new.py:134-144 | one subfolder: transfer and count when it is a subfolder whose keyword the name contains, otherwise nothing |
| Mover.FileMover.TransferFile | sorter_new.py:142-143 | one copy call (and removal, in move mode) has the effect of one reference step, and fails when the source file is gone |
| Sorter.SortInbox | sorter.py:15-42 | the script's pass ends as `MoveOutcome` states for `MoveFiles`, with the script's own wording in the log |

## Left out

- The window, its entry rows, folder browsing and the settings file (`sorter_new.py` lines 15-86 and 160-178) are user interface and persistence. They are not part of this model.
- The log file's location and timestamped name, the date formatting, and the actual file write are I/O. The model returns the lines that would be written.
- The script's creation of its folders (`os.makedirs`) and its final message are I/O. `Sorter.SortInbox` instead requires both folders to be directories.
- Directory listings come from the operating system. They are parameters: any order, each name once.
- Metadata is not modelled, only a file's contents: neither permission bits (kept by `shutil.copy`, `shutil.copy2` and `shutil.move`) nor timestamps and other metadata (kept by `shutil.copy2` and `shutil.move` only).
- A subfolder's own entries are modelled as files only. If a subfolder holds a directory with a source file's name, the library would copy into that directory. The model overwrites instead.
- Entries other than regular files and directories (links, devices) are `Other` and are never transferred. Link-following semantics are not modelled.
- The source and destination are assumed to be different folders, neither inside the other. Aliasing between them is not modelled.
- Failures other than a missing source file (permissions, full disk, concurrent changes by other programs) are not modelled. Neither is exception propagation beyond ending the pass without a log.
- Text-mode newline translation on the log file is not modelled. Each line ends in `\n`.
- The two operation words of the application are written as they are in the source, with a Latin `i` inside a Cyrillic word (`копiювання`, `перемiщення`).
