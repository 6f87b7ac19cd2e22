# szkarc tools: enumeration, extraction and deletion of sub-directory trees

This project models the shared core of a small set of archive tools: `szkarc`, `unzipdirs`
and `deldirs`, plus an older `main.cpp` driver. The model is written in Dafny and works over
an abstract, finite directory tree. The core covers:

- **Depth-bounded enumeration.** `list_subdirs` (szkarc.cpp and main.cpp) and `list_zipfiles`
  (unzipdirs.cpp) list one directory level, keep some entries, sort them, and either return
  them (depth 0) or recurse with `depth - 1`. szkarc.cpp and unzipdirs.cpp then concatenate
  the children's results with `flatten_nested` (szkarc.h). main.cpp:87-96 does not call it:
  it repeats the same reserve-and-insert loop inline. Since that code is the same, the
  model of main.cpp (`ZipMain.ListDirsBelow`) calls `NestedLists.FlattenNested` for it.
- **Path mapping.** `input2output` (unzipdirs.cpp) maps each archive found below the input
  directory to the directory it is extracted into.
- **`remove_if`/`erase` filters.** unzipdirs uses one for `--skip`, deldirs for its
  present/absent conditions.
- **Round-robin worker pool of unzipdirs.** Worker `k` of `jobs` handles indices
  `k, k + jobs, ...` and stops at its own first failure.
- **Deletion confirmation loop of deldirs.** It covers `--exec`, `--yes` and the Y/N prompt.

The tree is `FsModel.Node`: a file, or a directory with a sequence of children. The order of
that sequence is the arbitrary order of `directory_iterator`. A path is a sequence of
components.

Each `main` is modelled once argument parsing has finished. It becomes a specification
function together with a method that is proved equal to it. The following become
parameters:

- `onDisk: Path -> bool` stands for every `fs::exists` call.
- `unzipFails: Path -> bool` says whether `unzip` throws for an archive.
- `answers: seq<string>` holds the words that `std::cin` delivers.
- `cores >= 1` is the automatically detected core count.

`std::sort` becomes `FsModel.SortByName`, an insertion sort on names. It is proved to return
a sorted permutation of its input. `FsModel.PathLtUnder` proves that sorting paths which share
a parent is the same as sorting them by name.

Modules:

| file | module | models |
|---|---|---|
| flatten.dfy | NestedLists | `flatten_nested`, the reservation size |
| fs_model.dfy | FsModel | tree, paths, path order, extensions, level lists, sorting |
| filters.dfy | Filters | `std::remove_if` + `erase` |
| szkarc.dfy | Szkarc | `list_subdirs(indir, depth, include_files)` |
| workers.dfy | Workers | the strided worker loop and the pool |
| unzipdirs.dfy | UnzipDirs | `list_zipfiles`, `input2output`, unzipdirs `main` |
| deldirs.dfy | DelDirs | the condition filter, confirmation, deldirs `main` |
| zip_main.dfy | ZipMain | main.cpp's `list_subdirs(indir, depth)` and `main` |

## Model

| member | source | states |
|---|---|---|
| NestedLists.FlattenNested | szkarc.h:13-27 | the loop appends the inner lists in order: the result is their in-order concatenation, and its length is the summed inner length |
| NestedLists.SumSizes | szkarc.h:16 | the reduction starts from the 32-bit `0u`, so the reserved size is the summed inner length modulo 2^32 |
| NestedLists.ReserveSize | szkarc.h:16-18 | the reserved size is below 2^32 and equals the summed length whenever that sum fits in 32 bits |
| NestedLists.ReserveMatchesLength | szkarc.h:16-25 | when the sum fits in 32 bits, the reservation is exactly the length of the flattened result |
| NestedLists.FlattenLength | szkarc.h:19-25 | the flattened length is the sum of the inner lengths |
| NestedLists.FlattenAppend | szkarc.h:19-25 | flattening distributes over concatenation of the outer list |
| NestedLists.TotalSizeAppend | szkarc.h:16 | the summed size distributes over concatenation of the outer list |
| NestedLists.FlattenAllEmpty | szkarc.h:14-26 | an empty outer list, or one holding only empty lists, flattens to nothing |
| NestedLists.FlattenMember | szkarc.h:19-25 | an element is in the result iff it is in some inner list |
| NestedLists.FlattenAt | szkarc.h:19-25 | element j of inner list i sits at offset (size of the lists before i) + j of the result |
| FsModel.CollateSpec | szkarc.cpp:151-154 | gathering the recursive results succeeds iff every one succeeds, and then keeps them in order; otherwise the first failure is propagated |
| FsModel.CollateStopsAtError | szkarc.cpp:151-154 | once a prefix of the results has failed, the whole transform fails with that error |
| FsModel.PathLtUnder | szkarc.cpp:146 | paths below two entries of one directory compare as the entries' names do, so `std::sort` of a level is a sort by name |
| FsModel.PathLtIrreflexive | szkarc.cpp:146 | the path order is irreflexive: no path is below itself |
| FsModel.PathLtAsymmetric | szkarc.cpp:146 | the path order is asymmetric: two paths are never each before the other |
| FsModel.SortedPathsUnique | szkarc.cpp:146 | two strictly increasing path lists with the same members are equal |
| FsModel.SameEntriesReflexive | szkarc.cpp:138-145 | a well-formed tree has the same entries as itself |
| FsModel.SameEntriesReachable | szkarc.cpp:138-145 | two trees with the same entries, at every level in any order, reach exactly the same paths |
| FsModel.LastDot | unzipdirs.cpp:77 | the result is the index of the rightmost '.', or none when the name has no '.' |
| FsModel.ExtensionStart | unzipdirs.cpp:77 | an extension starts at a '.' that is neither the first character nor past the end |
| FsModel.StemExtension | unzipdirs.cpp:77-88 | a name is its stem followed by its extension; a non-empty extension leaves a non-empty, shorter stem |
| FsModel.CollectSpec | szkarc.cpp:138-145 | the `push_back` loop keeps exactly the directories, plus the plain files when files are included, and keeps names distinct |
| FsModel.CollectCount | szkarc.cpp:138-145 | each kept entry occurs as often as it was listed; a dropped entry does not occur |
| FsModel.InsertSpec | szkarc.cpp:146 | inserting into a sorted list keeps it sorted and adds exactly that one element |
| FsModel.InsertDistinct | szkarc.cpp:146 | inserting an entry with a new name keeps the names distinct |
| FsModel.SortByNameSpec | szkarc.cpp:146 | the sort returns a name-sorted permutation of its input |
| FsModel.SortByNameDistinct | szkarc.cpp:146 | sorting keeps the names distinct |
| FsModel.LevelListSpec | szkarc.cpp:137-146 | one level holds exactly the selected children of the directory, sorted by name, with no name twice |
| FsModel.PathsOfSorted | szkarc.cpp:146-149 | the depth-0 result is strictly increasing and lies strictly below the parent |
| FsModel.FlattenSorted | szkarc.cpp:150-156 | flattening per-entry results of a sorted level gives a strictly increasing list, although nothing sorts after flattening |
| FsModel.SortedUnique | szkarc.cpp:146 | two name-sorted lists without duplicate names and with the same entries are equal |
| FsModel.LevelListIgnoresOrder | szkarc.cpp:138-146 | the level does not depend on the order in which `directory_iterator` reports entries |
| FsModel.LevelMembers | szkarc.cpp:147-149 | the depth-0 paths are exactly the paths one component below the parent that name a kept child |
| FsModel.DeepMembers | szkarc.cpp:150-156 | the flattened deep results hold exactly the paths reachable through a sub-directory of the level |
| Filters.KeepMembers | deldirs.cpp:41-54 | the filter only removes: an element survives iff it was present and is not selected by the predicate |
| Filters.KeepAppend | deldirs.cpp:41-54 | the filter is stable: the survivors of a concatenation are the concatenated survivors |
| Filters.KeepOne | deldirs.cpp:41-54 | a single element survives iff the predicate does not select it |
| Filters.KeepExtremes | deldirs.cpp:41-54 | nothing is dropped when no element is selected, and everything is dropped when all are |
| Filters.KeepAgrees | unzipdirs.cpp:111-116 | two predicates that agree on the elements filter alike |
| Filters.RemoveIf | unzipdirs.cpp:111-114 | `remove_if` in place moves the survivors, in order, in front of the returned new end |
| Filters.EraseIf | unzipdirs.cpp:111-116 | `remove_if` followed by `erase` leaves exactly the stable filter of the vector |
| Szkarc.ListSubdirs | szkarc.cpp:136-158 | the method computes the listing specification `SubdirListing`, including the error when a file is enumerated |
| Szkarc.CollectEntries | szkarc.cpp:137-146 | the collect loop followed by the sort yields the level list |
| Szkarc.Entries | szkarc.cpp:151-154 | the transform yields one result per level entry |
| Szkarc.EntriesAt | szkarc.cpp:151-154 | result i of the transform is the recursive listing of entry i at its own path, with `depth - 1` |
| Szkarc.EntriesParentIrrelevant | szkarc.cpp:151-154 | the transform depends only on the level's entries |
| Szkarc.DepthZeroListsLevel | szkarc.cpp:138-149 | at depth 0 the result is strictly sorted, and holds a child's path iff the child is a directory or files are included |
| Szkarc.ListingMembers | szkarc.cpp:136-158 | for depth d >= 0 the result is exactly the paths d + 1 levels down that are reachable through sub-directories and end in a kept entry |
| Szkarc.DeepListingMembers | szkarc.cpp:150-156 | the same membership characterisation for the recursive case |
| Szkarc.EntriesMembers | szkarc.cpp:151-154 | each recursive result holds exactly the paths reachable from its own entry |
| Szkarc.ListingSorted | szkarc.cpp:136-158 | every successful listing is strictly increasing and lies strictly below the input |
| Szkarc.EntriesSorted | szkarc.cpp:151-154 | each recursive result is strictly increasing and lies below its own entry |
| Szkarc.NegativeDepthEmpty | szkarc.cpp:147-157 | a negative depth never reaches the base case, so the result on a finite tree is empty |
| Szkarc.DirectoriesOnlyNeverFails | szkarc.cpp:138-145 | without `include_files`, enumerating a directory never fails |
| Szkarc.FileEntryFails | szkarc.cpp:138-153 | with `include_files` and non-zero depth, a plain file in the level is enumerated and fails the whole listing |
| Szkarc.ListingIgnoresOrder | szkarc.cpp:138-146 | reordering the input directory's own entries does not change the listing, including its error |
| Szkarc.ListingIgnoresEntryOrder | szkarc.cpp:136-158 | two trees with the same entries at every level, in any order, give the same listing at every depth; with `include_files` this is proved when the input is a file or both listings succeed |
| Workers.StrideMember | unzipdirs.cpp:154 | an index is visited by the loop started at k iff it lies in [k, n) and has k's residue modulo `jobs` |
| Workers.OwnedIndices | unzipdirs.cpp:152-154 | worker k < jobs owns exactly the indices below n that are k modulo `jobs` |
| Workers.PartitionDisjoint | unzipdirs.cpp:152-154 | no index belongs to two different workers |
| Workers.PartitionCovers | unzipdirs.cpp:152-154 | every index below n belongs to worker `i % jobs` |
| Workers.StrideIncreasing | unzipdirs.cpp:154 | a worker visits its indices in increasing order, each `jobs` after the previous one, all below n |
| Workers.FirstFailureSpec | unzipdirs.cpp:163-169 | the stopping point is the unique position before which every job succeeds and at which a job fails, or the end |
| Workers.FirstFailureLocal | unzipdirs.cpp:154-171 | where a worker stops depends only on the outcomes of its own indices |
| Workers.RunWorker | unzipdirs.cpp:154-171 | the worker loop attempts its stride up to and including the first failure, ticks once per success, and records the failing index |
| Workers.WorkerUnaffected | unzipdirs.cpp:154-168 | a worker whose own jobs all succeed attempts its whole stride, whatever other workers meet |
| Workers.WorkerFailsIff | unzipdirs.cpp:163-169 | a worker records a failure iff one of its own indices fails |
| Workers.RunPool | unzipdirs.cpp:152-179 | the pool runs every worker and reports a stored exception iff some worker recorded one |
| Workers.PoolFailsIff | unzipdirs.cpp:152-179 | the pool fails iff there is at least one worker and some index below n fails |
| Workers.OnlyOwnerAttempts | unzipdirs.cpp:152-154 | no index is attempted by a worker other than its owner |
| Workers.AllAttemptedWithoutFailure | unzipdirs.cpp:152-171 | without failures every index is attempted by its owner and by no other worker |
| UnzipDirs.ListZipfiles | unzipdirs.cpp:59-84 | the method computes the search specification `ZipListing` |
| UnzipDirs.ListDirectories | unzipdirs.cpp:62-67 | the positive-depth loop and sort yield the sorted sub-directories |
| UnzipDirs.ListArchives | unzipdirs.cpp:76-81 | the last-level loop and sort yield the sorted entries whose extension is ".zip" |
| UnzipDirs.ZipEntries | unzipdirs.cpp:68-71 | the transform yields one result per sub-directory |
| UnzipDirs.ZipEntriesAt | unzipdirs.cpp:68-71 | result i is the search of sub-directory i with `depth - 1` |
| UnzipDirs.ZipListingNeverFails | unzipdirs.cpp:59-84 | searching a directory never fails, since only directories are descended into |
| UnzipDirs.ZipMembers | unzipdirs.cpp:59-84 | the result is exactly the ".zip" entries (directories included) max(depth, 0) + 1 levels down; a negative depth behaves like 0 |
| UnzipDirs.ZipEntriesMembers | unzipdirs.cpp:68-71 | each sub-search holds exactly the archives reachable from its own sub-directory |
| UnzipDirs.ReachableArchive | unzipdirs.cpp:77 | a path reaching an archive ends in a name with extension ".zip" |
| UnzipDirs.ZipListingBelow | unzipdirs.cpp:59-84 | every path found lies strictly below the input directory |
| UnzipDirs.ZipFilesAreArchives | unzipdirs.cpp:59-84 | every path found lies strictly below the input and has extension ".zip" |
| UnzipDirs.ZipListingSorted | unzipdirs.cpp:59-84 | the search result is strictly increasing |
| UnzipDirs.ZipListingIgnoresEntryOrder | unzipdirs.cpp:59-84 | two trees with the same entries at every level, in any order, give the same search result at every depth |
| UnzipDirs.ZipEntriesSorted | unzipdirs.cpp:68-71 | each sub-search is strictly increasing and lies below its sub-directory |
| UnzipDirs.Input2OutputExample | unzipdirs.cpp:86-89 | `in/a/b.zip` maps to `out/a/b`, and `in/c.tar.zip` to `out/c.tar` |
| UnzipDirs.Input2OutputShape | unzipdirs.cpp:86-89 | for `input == input_dir / rel`, the output is `output_dir / rel` with the last component's extension removed |
| UnzipDirs.Input2OutputInverse | unzipdirs.cpp:86-89 | for an archive below the input directory, putting ".zip" back and moving the output back below the input recovers the archive |
| UnzipDirs.Input2OutputInjective | unzipdirs.cpp:86-89 | different archives below the input directory get different output paths, compared as written |
| UnzipDirs.DotDotArchive | unzipdirs.cpp:86-89 | an archive named "...zip" has the stem "..", so its output path ends in a ".." component |
| UnzipDirs.SkipExisting | unzipdirs.cpp:110-118 | `--skip` keeps, in order, exactly the archives whose output does not exist, and reports original size minus new size |
| UnzipDirs.Jobs | unzipdirs.cpp:144-147 | a non-positive `--jobs` falls back to the (positive) core count, so at least one worker is started |
| UnzipDirs.JobsReportFailures | unzipdirs.cpp:144-179 | the pool fails exactly when some extraction fails |
| UnzipDirs.ToExtract | unzipdirs.cpp:110-118 | what is left to extract is a sub-list of what was found |
| UnzipDirs.Extract | unzipdirs.cpp:110-179 | the method computes `ExtractRun`: skip, then empty exit, dry run or the workers |
| UnzipDirs.UnzipDirsMain | unzipdirs.cpp:105-194 | the method computes `UnzipDirsRun`, the whole `main` after parsing |
| UnzipDirs.ExtractExit | unzipdirs.cpp:119-194 | the exit code is 1 iff there is no dry run and extracting some remaining archive fails; otherwise 0 |
| UnzipDirs.UnzipDirsExit | unzipdirs.cpp:105-194 | the program exits 1 iff the search fails or an extraction fails |
| UnzipDirs.ExtractWork | unzipdirs.cpp:110-173 | workers start iff archives remain and there is no dry run; the dry run lists what remains; the skip count and the survivors are as `--skip` promises |
| UnzipDirs.ArchiveAttempted | unzipdirs.cpp:152-171 | without failures every archive is attempted by its worker |
| UnzipDirs.DistinctOutputs | unzipdirs.cpp:152-164 | the archives of a search get pairwise different output paths, compared as written |
| DelDirs.UnmetAsWrittenIgnoresConditions | deldirs.cpp:41-53 | as written, a directory is dropped iff some absent condition is given, whatever is on disk |
| DelDirs.CandidatesAsWritten | deldirs.cpp:41-54 | as written, every directory survives when no absent condition is given, and none otherwise: the present list never matters |
| DelDirs.CandidatesMeetConditions | deldirs.cpp:26-54 | with the intended predicate, a directory survives iff it holds every present name and no absent name |
| DelDirs.PresentConditionIgnored | deldirs.cpp:47-51 | as written, "-p keep" makes a directory lacking "keep" a candidate, which the intended filter excludes |
| DelDirs.AbsentConditionInverted | deldirs.cpp:42-51 | as written, "-a x" keeps a directory lacking "x" from deletion, although the intended filter deletes it |
| DelDirs.FirstReplySpec | deldirs.cpp:64-77 | the reply is the first y/Y (confirm) or n/N (decline) word, with the words read up to it; there is no reply iff no word is either |
| DelDirs.Confirm | deldirs.cpp:63-77 | the prompt loop returns the reply of `Ask`: `--yes` confirms without reading; end of input hangs |
| DelDirs.DeleteAll | deldirs.cpp:59-83 | the loop removes, in order, the candidates whose prompt was confirmed, as `DeleteSpec` says |
| DelDirs.DeleteYesRemovesAll | deldirs.cpp:62-81 | with `--yes` every candidate is removed, in order, and no input is read |
| DelDirs.DeleteOnlyCandidates | deldirs.cpp:59-83 | only candidates are removed, and no more words are read than given |
| DelDirs.DeleteAllDeclined | deldirs.cpp:64-81 | answering "n" every time removes nothing and reads one word per candidate |
| DelDirs.FilterAndDeleteMain | deldirs.cpp:35-91 | for any drop predicate, the method computes `FilterAndDelete`: condition check, `remove_if`/`erase` with that predicate, empty exit, dry run or deletion |
| DelDirs.DelDirsMain | deldirs.cpp:30-106 | the method computes `DelDirsRun`, the whole `main` after parsing, with the filter as written (`UnmetAsWritten`) |
| DelDirs.DelDirsExit | deldirs.cpp:30-106 | with the filter as written, the exit code is 1 iff the listing fails or no condition is given; the program hangs only when it prompts, input runs out and no absent condition is given |
| DelDirs.DelDirsAsWritten | deldirs.cpp:41-91 | as written, any absent condition makes `main` exit 0 with nothing listed or removed; with only present conditions, the dry run lists every sub-directory and `--exec --yes` removes every one |
| DelDirs.FilterAndDeleteEffects | deldirs.cpp:55-91 | for any drop predicate: without `--exec` nothing is removed and the candidates are listed; `--exec --yes` removes all candidates; anything listed or removed is a sub-directory the predicate keeps |
| DelDirs.IntendedDeletesOnlyMatches | deldirs.cpp:26-54 | with the intended filter, anything listed or removed holds every present name and no absent name |
| DelDirs.CandidatesDisjoint | deldirs.cpp:31-54 | for any drop predicate, candidates lie at the same depth and are distinct, so none contains another |
| ZipMain.ListDirsBelow | main.cpp:70-99 | on a directory, the collect, transform and flatten loops compute the directories-only `SubdirListing`, and it never fails |
| ZipMain.ListDirs | main.cpp:70-99 | the method computes the directories-only listing, which fails only when the input is a file |
| ZipMain.RunZipMain | main.cpp:117-141 | the method computes `ZipMainRun`: errors give 1, a dry run prints the listing and gives 0, otherwise 0 |
| ZipMain.ZipMainExit | main.cpp:117-141 | the exit code is 1 iff the input is not a directory; output appears only on a successful dry run |
| ZipMain.DryRunPrintsListing | main.cpp:72-127 | a dry run returns 0 and prints a strictly increasing list of exactly the directories depth + 1 levels down, and nothing for a negative depth |

## Left out

- Archive I/O is not modelled. This covers `unzip` with minizip (unzipdirs.cpp:24-56), `ZipReader`/`ZipWriter` (main.cpp) and `stream_os_open`. Whether `unzip` throws for an archive is the oracle `unzipFails`.
- `get_physical_core_counts` (szkarc.cpp:122-131) is an OS query. The detected count is a parameter `cores >= 1`. `std::thread::hardware_concurrency` may report 0, in which case no worker would start; that case is not modelled.
- `wstr2utf8` and all platform encoding is not modelled. Names are compared character by character.
- Threads are modelled sequentially, one worker after another: the threads themselves, the mutex around `create_directories`, the unsynchronised writes to the shared `exception_ptr`, `join` and the progress bar. A worker's loop never reads the shared exception, so each worker is independent and running them sequentially gives the same per-worker runs. Which of several stored exceptions is rethrown is not modelled; only that one is.
- `Workers.RunWorker` uses unbounded integers: the `int` overflow of `i += jobs` near `INT_MAX` is not modelled.
- Real file-system effects are not modelled beyond the tree and the oracles. This covers `fs::exists`, `create_directories` and `remove_all`. The tree is not changed by deletions, and a failing `remove_all` is not modelled.
- `onDisk` is an arbitrary predicate. It is not tied to the `Node` tree, so the model does not assume the two agree.
- Symbolic links and special files are not modelled. An entry is a file or a directory.
- `lexically_relative` is modelled only in the prefix case, where the input lies below the input directory. The result "." for the input directory itself is included; `..`, roots and non-prefix inputs are not.
- A name is one path component. Names containing separators are not modelled.
- `std::sort` is modelled as a function on sequences, not as an in-place sort of a vector.
- The path order compares names by character code, component by component. Platform-specific path comparison is not modelled.
- TCLAP parsing, help text, `stoi` and all message wording are not modelled. The mapping of exceptions to exit codes is modelled for the enumeration error and for the unzip exception that unzipdirs rethrows after the workers join (unzipdirs.cpp:177-178, 186-188). In main.cpp a `TCLAP::ArgException` falls through to exit 0; this is not modelled.
- Printing is modelled as the list of paths printed, without their text.
- deldirs waits forever when standard input runs out before a y/n answer: `cin >> ans` keeps failing and the prompt repeats. The model reports this as `Exit.Hangs` instead of looping.
- `NestedLists.ReserveSize`: the reservation is a capacity hint. It models the 32-bit truncation of the reduction's accumulator. No allocation is modelled, and the flattened result does not depend on the hint.
- `UnzipDirs.DistinctOutputs`: outputs are compared as lexical paths, and "." and ".." components are not resolved. An archive named "...zip" has the stem "..", so `in/a/...zip` and `in/b/...zip` get the different paths `out/a/..` and `out/b/..`, which both name `out` on disk (`UnzipDirs.DotDotArchive`). `UnzipDirs.Input2OutputInjective` is stated the same way.
- `Szkarc.ListingIgnoresEntryOrder`: with `include_files` on a directory, equality is proved only when both listings succeed. That an error arises in one order iff it arises in the other, and which file it names, is not proved.

## Findings

| source | as written | input that shows it | evidently intended | confidence | as-written member | corrected member |
|---|---|---|---|---|---|---|
| deldirs.cpp:47-51 | the second `any_of` ("present unmet") iterates `cond_absent` again, testing that an absent name is missing | `-p keep` on a directory `d` with nothing in it: `d` becomes a deletion candidate although it lacks "keep"; `-a x` on the same `d`: `d` is not a candidate although it lacks "x" | iterate `cond_present`: drop a directory missing a present name, as the help text of `--present` (deldirs.cpp:26) describes | high (not executed) | DelDirs.UnmetAsWritten, used by DelDirs.DelDirsRun and shown by DelDirs.PresentConditionIgnored, DelDirs.AbsentConditionInverted, DelDirs.CandidatesAsWritten and DelDirs.DelDirsAsWritten | DelDirs.Unmet, with DelDirs.CandidatesMeetConditions and DelDirs.IntendedDeletesOnlyMatches |
