# Lab2.c in Dafny: flattening a directory tree

Lab2.c is a command-line program, `prog <srcDir> <sortType> <destDir>`. It
collects every regular file under `srcDir`, sorts the records by name
(`sortType` "2") or by size ("1"), and copies each file into the single
directory `destDir`. When a destination name is already taken, it rewrites
the name's tail (`a.txt`, `a.txt[1]`, `a.txt[2]`, ...) until it finds a
free one.

This project models that program and proves properties of the model.

- **CStr** (`cstr.dfy`) holds the C library pieces the program relies on:
  - `strcmp`, as the difference of the first differing characters;
  - `strrchr`;
  - `atoi`, with C-locale white space, a sign and the leading digits;
  - `sprintf("%d")`;
  - `isdigit`.
- **Collision** (`collision.dfy`) holds the collision loop of `writeFiles`:
  - `Step` is one pass of the loop body over the whole path string. It includes the directory part, as `strrchr` does.
  - `Resolve` is where the loop stops, or `None` when a fuel bound runs out.
  - `FindFreePath` is the `while` loop itself.
- **Names** (`names.dfy`) holds `basename`, `getSortType` and the argument checks of `main`.
- **Records** (`records.dfy`) holds the `FileInfo` record and `filesInDir`:
  - A value tree stands in for `opendir`/`readdir`/`realpath`/`stat`. It also carries, per regular file, whether the `realloc` made room.
  - The class `FileList` is the array `*files` with its count `*files_count`. Its method `Append` bumps the count and restores both fields when `realloc` fails.
  - `FilesInDir` is the `readdir` loop with its recursion. It is proved to append exactly the specification function `Walk`.
- **Ordering** (`ordering.dfy`) holds the two comparators, with `cmpSize` modelled exactly as written. It also holds an insertion sort on an array standing in for `qsort`, proved sorted and a permutation. Size order uses the corrected three-way comparator (see Findings).
- **Writer** (`writer.dfy`) holds the `for` loop of `writeFiles`:
  - The class `Disk` has the set of existing paths as its state.
  - The path buffer `out_path` is carried from one record to the next. Each pass cuts it back to the length of "<dir>/" and appends the file name (`Collision.FirstCandidate`). What the previous pass's collision loop left in the buffer stays there.
  - `WriteFiles` is proved equal to the specification function `WriteAll`.
  - The lemmas show that copies never overwrite, that the loop terminates for untagged names, and how repeated names are numbered.
- **Program** (`program.dfy`) holds `main`: arguments, walk, sort, copy.

Oracles stand in for the file system:

- `access(F_OK)` becomes a set of taken paths.
- `fopen` failures become sets of paths.
- The result of `realpath` on the destination becomes an `Option`.

Where Lab2.c's behaviour is odd, the model follows the code:

- A tag that reads as 0 (`x[0]`) loses its closing `]` and nothing else happens in that pass. The next pass appends `[1]` (`x[0[1]`).
- The guard `brc_o < out_path + len - 2` can never fail (`Collision.StepFixpoint`).
- A taken path that ends in `<digit>]` and holds no `[` makes the loop spin for ever (`Collision.ResolveStuck`).
- A `[` in the destination directory's own name can steer the rewrite out of the directory (`Collision.StepCanLeaveDirectory`). The rewritten bytes then stay in the path buffer, so the next record starts from them. With the destination "/t/[3", "x5]" taken and the records x5] and y, the copies go to "/t/[4]" and then "/t/[4]y" (`Writer.RewrittenPrefixCarriesOver`).
- The number of records equals the number of reachable regular files only when no `stat` and no `realloc` fails; otherwise there are fewer (`Records.WalkCount`).

## Model

| member | source | states |
|---|---|---|
| `CStr.StrCmp` | Lab2.c:39 | on C strings, strcmp is 0 exactly when the two strings are equal |
| `CStr.StrCmpAntisymmetric` | Lab2.c:39 | swapping strcmp's arguments negates the result |
| `CStr.StrCmpTransitive` | Lab2.c:39 | on C strings, "strcmp(a, b) <= 0" is transitive |
| `CStr.CommonPrefix` | Lab2.c:39 | the result is the length of the longest common prefix of the two strings |
| `CStr.StrCmpIsLexicographic` | Lab2.c:39 | strcmp is negative exactly when a is a proper prefix of b, or a is smaller at the first differing position |
| `CStr.StrRChr` | Lab2.c:49 | strrchr finds nothing exactly when the character is absent; otherwise it returns an index holding the character, with no later occurrence |
| `CStr.StrRChrConcat` | Lab2.c:134 | strrchr over a + b finds the last occurrence in b when b has one, shifted by the length of a, and otherwise what strrchr finds in a |
| `CStr.LeadingDigitsIsLongestDigitPrefix` | Lab2.c:137 | the digits atoi reads are the longest all-digit prefix of the text |
| `CStr.LeadingDigitsOfDigits` | Lab2.c:137 | atoi's digit scan takes the whole of an all-digit string |
| `CStr.NatToDigitsCorrect` | Lab2.c:139 | the digits sprintf writes for n >= 0 are at least one decimal digit and have the value n |
| `CStr.IntToStringShape` | Lab2.c:139 | sprintf("%d") writes a nonempty string that ends in a digit and holds no NUL, '[', ']' or '/', with only a leading '-' for negatives |
| `CStr.AtoiIntToString` | Lab2.c:137-139 | atoi reads back exactly the number that sprintf("%d") wrote |
| `CStr.IntToStringInjective` | Lab2.c:139 | different numbers print as different strings |
| `Names.Basename` | Lab2.c:47-51 | the result holds no '/' and is a suffix of the argument; it is the whole argument when there is no '/', and otherwise the text right after a '/' |
| `Names.BasenameOfJoin` | Lab2.c:47-51 | the basename of "dir/name" is name whenever name has no '/' |
| `Names.GetSortType` | Lab2.c:172-182 | the result is BY_SIZE (1) exactly for "1", BY_NAME (0) exactly for "2", and -1 exactly for every other argument |
| `Names.ParseArgs` | Lab2.c:187-200 | the command line is refused as miscounted exactly when it does not have 4 words, and refused for its sort type exactly when argv[2] is neither "1" nor "2"; otherwise the source is argv[1], the destination argv[3], and the sort type is getSortType's |
| `Records.FileList.constructor` | Lab2.c:203-204 | the record array starts out empty with count 0 |
| `Records.FileList.Append` | Lab2.c:93-107 | on success the count grows by one, the new last record holds the path, name and size, and earlier records are unchanged; on realloc failure the records and the count are exactly as before |
| `Records.FileList.FilesInDir` | Lab2.c:53-116 | the readdir loop appends exactly the records of Walk: an unavailable directory adds nothing; it descends into directories other than "." and ".."; it adds a regular file when its stat and realloc succeed; other entries are skipped |
| `Records.Walk` | Lab2.c:77-108 | the records filesInDir appends for a tree, in readdir order, are never more than its reachable regular files |
| `Records.WalkEntries` | Lab2.c:77-108 | the records appended for the first n entries of a listing are never more than the regular files reachable through them |
| `Records.WalkCount` | Lab2.c:77-108 | a walk yields at most one record per reachable regular file, and exactly one each when no stat or realloc fails |
| `Records.WalkEntriesCount` | Lab2.c:77-108 | the same count bound for the records of the first n entries of a listing |
| `Records.NamedByPathConcat` | Lab2.c:105-106 | joining two record lists whose names are their paths' basenames keeps that property |
| `Records.RecordNamed` | Lab2.c:80-106 | the record built for an entry whose name has no '/' has that name as the basename of its path |
| `Records.WalkRecordsNamed` | Lab2.c:80-106 | when no entry name holds '/', every record's filename is the basename of its path |
| `Records.WalkEntriesRecordsNamed` | Lab2.c:80-106 | the same for the records of the first n entries of a listing |
| `Ordering.CmpFilename` | Lab2.c:37-40 | cmpFilename is 0 exactly when the two file names are equal |
| `Ordering.CmpFilenameIsOrder` | Lab2.c:37-40 | cmpFilename is antisymmetric and transitive, and is negative exactly when the first name comes first in lexicographic order |
| `Ordering.CmpSizeInconsistent` | Lab2.c:42-45 | for sizes 1 and 2, cmpSize says "equal" one way round and "after" the other |
| `Ordering.CmpSizeThreeWay` | Lab2.c:42-45 | the corrected comparator is negative, zero or positive exactly as the first size is smaller, equal or larger |
| `Ordering.Compare` | Lab2.c:207 | for "2" the comparator is 0 exactly when the two C-string names are equal; for "1" it is the corrected size comparator, negative exactly for a smaller size and 0 exactly for an equal one |
| `Ordering.CompareAntisymmetric` | Lab2.c:207 | with cmpFilename for "2" and the corrected size comparator for "1", "x after y" implies "y before x" |
| `Ordering.CompareTransitive` | Lab2.c:207 | the comparator main picks is transitive on "before or level" |
| `Ordering.AdjacentToSorted` | Lab2.c:207 | when every neighbouring pair is in comparator order, every pair is |
| `Ordering.Swap` | Lab2.c:207 | swapping two records changes exactly those two places and keeps the multiset of records |
| `Ordering.InsertingSwap` | Lab2.c:207 | swapping an out-of-order neighbour pair moves the one remaining disorder one place down |
| `Ordering.InsertingDone` | Lab2.c:207 | once the moving record is in place, the first i + 1 records are in order |
| `Ordering.InsertingStart` | Lab2.c:207 | a sorted prefix of length i is the starting state of pass i |
| `Ordering.InsertStep` | Lab2.c:207 | one insertion pass extends the sorted prefix by one record and keeps the multiset |
| `Ordering.Sort` | Lab2.c:207 | the array ends up in comparator order (every pair) and is a permutation of the input |
| `Collision.Resolve` | Lab2.c:131-144 | whenever the loop stops, the chosen path is not taken |
| `Collision.Step` | Lab2.c:132-143 | a path without the "<digit>]" tail gets exactly "[1]" appended; a "<digit>]" path with no '[' is left as it is; otherwise the last '[' lies before the final digit and everything up to and including it is kept |
| `Collision.Retag` | Lab2.c:136-140 | rewriting the tag whose '[' is at b keeps everything up to and including that '[' and leaves text after it |
| `Collision.StepRetags` | Lab2.c:136-140 | for any "<digit>]" path whose last '[' is at b, when atoi reads the text after it as a nonzero N, that text and the ']' become the printed N + 1 and ']' |
| `Collision.StepOfZeroTag` | Lab2.c:136-138 | for any "<digit>]" path whose last '[' is at b, when atoi reads the text after it as 0, only the final ']' is removed |
| `Collision.StepOfNonzeroTag` | Lab2.c:136-140 | when atoi reads the tag as nonzero the step changes the path |
| `Collision.LastBracketOfTagged` | Lab2.c:134 | the last '[' of stem + "[" + t + "]" is the one before t, when t has no '[' |
| `Collision.StepAppendsTag` | Lab2.c:133-143 | a path that does not end in "<digit>]", or has at most 3 characters, gets exactly "[1]" appended; a second step gives "[2]" |
| `Collision.StepIncrementsTag` | Lab2.c:134-140 | "stem[N]" with N nonzero becomes "stem[N+1]"; everything up to and including the '[' is kept |
| `Collision.StepDropsBracketOfZeroTag` | Lab2.c:136-138 | a tag that atoi reads as 0 loses only its closing ']'; the next step appends "[1]" |
| `Collision.StepFixpoint` | Lab2.c:133-135 | for a "<digit>]" path the last '[' always lies before position len-2; a step leaves a path unchanged exactly when it ends in "<digit>]" and has no '[' |
| `Collision.StepKeepsDirectory` | Lab2.c:131-144 | a step from a path that starts with a directory prefix ending in '/' and holding no '[' gives a path that still starts with that prefix |
| `Collision.StepKeepsUnder` | Lab2.c:131-144 | the loop body keeps every path under a '['-free "<dir>/" under it |
| `Collision.IterateKeepsUnder` | Lab2.c:131-144 | a loop body that keeps every path under a directory keeps every candidate of the loop under it |
| `Collision.ResolveKeepsUnder` | Lab2.c:131-144 | with such a loop body, the path the loop stops at lies under the directory too |
| `Collision.StepCanLeaveDirectory` | Lab2.c:134-139 | with the directory "/t/[3" and the name "x5]", the next candidate is "/t/[4]", outside the directory |
| `Collision.IterateLast` | Lab2.c:131-144 | k + 1 passes of the loop body are one more pass after k |
| `Collision.IterateKeepsDirectory` | Lab2.c:131-144 | from a path under a '['-free "<dir>/", every candidate the loop visits keeps that prefix: only the name part is rewritten |
| `Collision.UntaggedIterates` | Lab2.c:133-143 | from an untagged start the loop visits the start, then start[1], start[2], ... in order |
| `Collision.ResolveFindsFirstFree` | Lab2.c:131 | the loop stops at the first candidate that is not taken |
| `Collision.ResolveNone` | Lab2.c:131 | the loop runs past the fuel bound exactly when every candidate up to the bound is taken |
| `Collision.ResolveFuelMonotone` | Lab2.c:131 | a path the loop finds does not change with more fuel |
| `Collision.ResolveStuck` | Lab2.c:131-135 | a taken path that ends in "<digit>]" and has no '[' is never left: the loop does not terminate |
| `Collision.TaggedInjective` | Lab2.c:139 | different tags give different paths |
| `Collision.UntaggedCandidatesDistinct` | Lab2.c:133-143 | the first n candidates from an untagged start are n different paths |
| `Collision.CandidatesNext` | Lab2.c:131-144 | the first n + 1 candidates are the first n and the candidate after n rewrites |
| `Collision.UntaggedResolves` | Lab2.c:131-144 | from an untagged start the loop always terminates, within as many rewrites as there are taken paths |
| `Collision.FirstCandidate` | Lab2.c:126-130 | while the path buffer still starts with "<dir>/" the first candidate is "<dir>/<filename>"; a buffer no longer than "<dir>/" is kept whole and the file name appended to it |
| `Collision.NextCopyGetsNextTag` | Lab2.c:131-144 | when start, start[1], ..., start[k-1] exist, the loop settles on start[k] (the start itself for k = 0) |
| `Collision.FindFreePath` | Lab2.c:131-144 | the while loop returns what Resolve specifies, and any path it returns is not taken |
| `Writer.Next` | Lab2.c:128-167 | one pass of the for loop, started from the path buffer the previous pass left, reports the record's source, and any destination it settles on was not on the disk |
| `Writer.WriteAll` | Lab2.c:128-168 | the run of the for loop, which hands the path each pass settles on to the next pass as its buffer, has at most one outcome per record |
| `Writer.WriteAllFrom` | Lab2.c:128 | the run from record i is record i's outcome followed by the run on the disk that outcome leaves |
| `Writer.DestinationsAppend` | Lab2.c:150-165 | one more outcome adds its destination to the created paths exactly when it is a copy |
| `Writer.DestinationsConcat` | Lab2.c:150-165 | the paths created by two logs in a row are the union of each log's |
| `Writer.WriteAllShape` | Lab2.c:128-168 | outcome i is about record i (matching sources); only the last outcome can be a hang, and without a hang every record is handled |
| `Writer.WriteAllFresh` | Lab2.c:131-155 | no copy overwrites: each destination was neither on the disk at the start nor created earlier in the run |
| `Writer.WriteAllStaysInside` | Lab2.c:126-144 | with a loop body that never rewrites "<dir>/" and the buffer starting with it, every destination lies in the destination directory |
| `Writer.WriteAllTerminates` | Lab2.c:128-144 | for a destination whose real path has no '[', when no "<dir>/<filename>" ends in "<digit>]" and the fuel covers the disk plus the records, no record hangs and every record is handled |
| `Writer.WriteAllSameName` | Lab2.c:126-168 | with a loop body that never rewrites "<dir>/", when candidates m, m + 1, ... of a name each settle in turn once the earlier ones exist, records that share that name are all copied, to those candidates in array order |
| `Writer.UntaggedSettlesInTurn` | Lab2.c:131-144 | from an untagged start, with candidates 0 .. k-1 on the disk and enough fuel, the loop settles on candidate k |
| `Writer.WriteAllSameNameTags` | Lab2.c:126-168 | for a destination whose real path has no '[', from an empty disk the copies of one name land at name, name[1], name[2], ... (three a.txt give a.txt, a.txt[1], a.txt[2]) |
| `Writer.RewrittenPrefixCarriesOver` | Lab2.c:129-130 | with the destination "/t/[3" and "/t/[3/x5]" taken, the records x5] and y are copied to "/t/[4]" and then "/t/[4]y": the rewritten buffer carries over to the next record |
| `Writer.Disk.constructor` | Lab2.c:118-121 | the disk starts with the given existing paths |
| `Writer.Disk.WriteFiles` | Lab2.c:118-170 | when realpath fails, nothing happens; otherwise, with the buffer starting as "<dir>/" and kept from pass to pass, the outcomes are exactly WriteAll's, and the disk gains exactly the copied destinations |
| `Writer.Disk.CopyOne` | Lab2.c:129-167 | one record's outcome, from the buffer it is given, is Next's, and the disk gains the destination exactly when it is copied |
| `Program.Run` | Lab2.c:184-212 | exit status 1 exactly when the arguments are refused, with nothing copied; otherwise the collected records are rearranged (a permutation of the walk) into order by name for "2" and by the corrected size order for "1", and are copied as WriteAll says, the buffer starting as "<dir>/" |

## Left out

- File-system I/O is replaced by values:
  - `opendir`, `readdir`, `closedir`, `realpath` and `stat` by the `Records.Dir` tree;
  - `access` by a set of taken paths;
  - `fopen` by sets of paths where it fails;
  - `realpath` of the destination by an `Option`.
- Each listing in the tree carries the real path of its directory as an oracle value. The model does not recompute it from the joined path that the recursion passes to `realpath`.
- The byte-copy loop and the file contents (Lab2.c:157-166) are not modelled. A copy is recorded as its source and destination. Short writes are only reported in the C program. The `fflush` after `fclose` is not modelled.
- Diagnostics on stderr (`printError`) and the global `module_name` set from `basename(argv[0])` are output side effects only.
- `qsort` is replaced by an insertion sort, and only its outcome is modelled: a permutation, sorted by the comparator `Ordering.Compare`. `qsort`'s own order of ties is left unspecified.
- Program.Run: for sort type "1" the records are sorted by the corrected comparator `Ordering.CmpSizeThreeWay`, not by `cmpSize` as written. `qsort` with `cmpSize` has no defined result order (see Findings), so only the permutation holds for the program as written.
- Ordering.Compare: for sort type "1" this is `Ordering.CmpSizeThreeWay`, not `cmpSize` as written (`Ordering.CmpSize`).
- Ordering.CompareAntisymmetric: for sort type "1" it holds of the corrected comparator only. `cmpSize` itself is not antisymmetric (`Ordering.CmpSizeInconsistent`). The same goes for `Ordering.CompareTransitive`, `Ordering.Sort` and `Ordering.InsertStep`.
- Writer.WriteAllTerminates: stated only for a destination whose real path has no '['. With a '[' there, the rewrite can reach the directory part and the next record starts from the rewritten buffer (`Writer.RewrittenPrefixCarriesOver`), so the numbering of later records is not captured.
- Writer.WriteAllSameName: stated only for a loop body that never rewrites "<dir>/". For `Step` that means a destination whose real path has no '[', for the same reason.
- Writer.WriteAllSameNameTags: stated only for a destination whose real path has no '[', for the same reason.
- The following memory and buffer behaviour is left out:
  - overflow of the fixed buffers against `PATH_LEN` and `NAME_MAX` by `strcat`/`strcpy`;
  - the unchecked `malloc` in `writeFiles`;
  - the leaks of `full_path`, `curr` and `out_path` on the error paths.
- Paths are `seq<char>` values. Updating the `out_path` buffer in place is modelled as reassigning a string variable.
- `realloc` is modelled on a `seq` field. The model does not capture that a successful `realloc` may move the block.
- Integers are unbounded. The model leaves out `int` overflow of `atoi` and of `++digit` at INT_MAX, and the width of `off_t`.
- Collision.FindFreePath: cut off after `fuel` rewrites, where the C loop never terminates; `None` stands for the endless loop. `Collision.ResolveStuck` and `Collision.ResolveNone` state when that happens.
- Records.Descends: compares entry names with `!=` instead of `strcmp`. The two agree on C strings (`CStr.StrCmp`).

## Findings

| source | as written | input that shows it | evidently intended | confidence | as-written member | corrected member |
|---|---|---|---|---|---|---|
| Lab2.c:42-45 | `cmpSize` returns `a > b`, which is 0 or 1 and never negative, so `qsort` gets no consistent order by size | two records of sizes 1 and 2: `cmpSize(small, large) == 0` but `cmpSize(large, small) == 1` | ascending order of size, with a three-way result (negative, zero, positive); the model sorts with this comparator (`Ordering.Compare`, `Ordering.Sort`) and keeps `Ordering.CmpSize` as written | high; not executed | `Ordering.CmpSizeInconsistent` | `Ordering.CmpSizeThreeWay` |
