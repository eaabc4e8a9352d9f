# conda-suggest: map files and exact lookup, in Dafny

conda-suggest tells a user which conda package provides a command they typed.
Its index is a set of *map files*. Each map file is named
`<channel>.<subdir>.map`, and each of its lines is an `exe:pkg` pair, sorted
ascending as Python tuples.

This project models the two halves that meet in that format:

- **The query side** (`conda_suggest/find.py`), module `Find` in `find.dfy`:
  - parsing a map file's name and lines (`Mapfile.__init__`);
  - the exact lookup. It uses two binary searches with the sentinel packages
    `" "` and `"~"`, plus the fallback to `.exe` and `.bat` names on Windows
    subdirs (`Mapfile.exact_find`);
  - the process-wide cache of parsed files (`MAPFILES`, `get_mapfile`), as the
    class `Find.MapFileCache`;
  - lookup in one file (`exact_find_in_mapfile`) and across all files
    (`exact_find`).
- **The producer side** (`conda_suggest/generate.py`), module `Generate` in
  `generate.dfy`:
  - which executables an artifact provides. These are paths matched by
    `EXECUTABLE_RE`, written here as a hand-made matcher, plus noarch entry
    points;
  - the per-artifact cache entries, as the class `Generate.ArtifactCache`;
  - the channel name;
  - rendering a cache into the text of a map file (`generate_map`).

Supporting modules:

- `strings.dfy` (`Strings`): the Python `str` operations the code relies on.
  These are code-point ordering, `partition`, `rpartition`, `startswith`,
  `endswith`, `strip` with Python's whitespace set, `splitlines` with Python's
  full set of line boundaries, and `join`.
- `sorting.dfy` (`Sorting`): Python's `sorted` applied to a set.
- `entries.dfy` (`Entries`): the `(exe, pkg)` pair and its tuple order.
- `results.dfy` (`Results`): `Option` and `Result`.
- `roundtrip.dfy` (`RoundTrip`): joins the two halves. A map file written by
  the generator, read back by the query side, gives the generator's pairs. They
  come back in the order the binary searches rely on, with the channel and
  subdir the generator wrote into the file name. This holds when the channel
  name has no `.`, the subdir has no `/`, no executable holds a `:` and no
  name holds a line boundary. Otherwise the source itself reads back
  something else: channel `my.channel` and subdir `linux-64` give the file
  `my.channel.linux-64.map`, which reads back as channel `my` and subdir
  `channel.linux-64`.

How the outside world is represented:

- Reading a file is a lookup in a `FileSystem` value (`map<string, string>`).
  A missing path raises `FileReadError`.
- `glob.glob("*.map")` becomes the list of file names the caller passes in.
- An archive is given as the lines of its `info/files` member and its parsed
  `info/link.json`.
- Removal expressions are predicates on executable names.

The model follows the evidently intended code in four places where the code
as written cannot run:

- `find.py:33` and `find.py:42` call `bisect_left` and `bisect_right`
  unqualified, while `find.py:4` imports only the module `bisect`. As written,
  every call of `exact_find` raises `NameError` at `find.py:33`. The model
  uses the module's functions.
- The same two calls pass their arguments in the wrong order. The sentinel
  tuple is passed as the sequence and the entry list as the key, so even with
  the names qualified, comparing a `str` with a `list` raises `TypeError`.
  The model searches the entries for the key.
- `find.py:65` loops `for filename in filename`, which reads the loop variable
  before it is assigned. The model loops over `filenames`.
- `find.py:43` returns a list slice, while the other paths return sets. The
  model returns a set on every path. With the first two repairs made, the code
  as written is kept next to it as finding 1 below.

The removal expressions come from `tests/test_generate.py`. That test calls
`generate_map` with `remove_exprs` and `write` arguments, which
`generate.py:110` does not take. `Generate.GenerateMap` takes the expressions
as a list of predicates. With an empty list it is the code as written, except
that a cache with no pairs gives the empty text `""` instead of raising
`IndexError` (finding 2 below). Instead of writing the file, it returns the
map file's name, its sorted pairs and its text.

## Model

| member | source | states |
|---|---|---|
| Find.ParseLine | conda_suggest/find.py:23 | a line is split at its first `:`, so the executable holds no `:`; a line without `:` is all executable and has the empty package |
| Find.ParseLineSplits | conda_suggest/find.py:23 | a line with a `:` is exactly its executable, the `:` and its package |
| Find.ParseLines | conda_suggest/find.py:23 | one entry per line, in file order, each the split of its line |
| Find.ParseFileNameRoundTrip | conda_suggest/find.py:16-17 | a file `<channel>.<subdir>.map`, in any directory, parses back to that channel and subdir, when the channel has no `.` |
| Find.ParseFileNameChannel | conda_suggest/find.py:16-17 | the channel holds no `.`; a base name without `.` is all channel and gives the empty subdir |
| Find.BasenameHasNoSlash | conda_suggest/find.py:16 | the base name holds no `/` and is no longer than the path; a path without `/` is its own base name |
| Find.BasenameOfPath | conda_suggest/find.py:16 | `os.path.basename` gives the last path component whatever the directory |
| Find.Load | conda_suggest/find.py:14-23 | loading fails exactly when the file cannot be read, with that path's error; a loaded map file carries its own name, the channel and subdir parsed from it, and one entry per line of the text |
| Find.LowSentinelBelow | conda_suggest/find.py:32-33 | a package is at or above the `" "` key exactly when it is non-empty and starts with a space or a later character |
| Find.HighSentinelAbove | conda_suggest/find.py:41-42 | a package is at or below the `"~"` key exactly when it is empty, starts below `~`, or is `~` |
| Find.SentinelRangeCharacterised | conda_suggest/find.py:32-42 | the packages the two sentinel keys bracket are exactly the non-empty ones starting between space and `}`, plus `~`; the empty package of a line without `:` is outside |
| Find.BisectLeft | conda_suggest/find.py:33 | in a sorted list, the returned index splits the entries below the key from those not below it |
| Find.BisectRight | conda_suggest/find.py:42 | in a sorted list and from `lo=start`, the returned index splits the entries not above the key from those above it |
| Find.Bounds | conda_suggest/find.py:33-43 | the found test is `entries[left].exe == exe`; in a sorted file the slice holds only `exe`; in a sorted file whose packages all sort at or above `" "`, `exe` is found exactly when some entry has it; in a well-formed file the slice is exactly the entries for `exe` |
| Find.SuffixedNamesStop | conda_suggest/find.py:36 | a name with `.exe` or `.bat` appended fails the fallback guard, so the fallback recurses one level only |
| Find.WindowsFallbackIsUnion | conda_suggest/find.py:36-38 | on a `win` subdir, a missing name without extension answers the union of the answers for `.exe` and `.bat` |
| Find.AbsentIsEmpty | conda_suggest/find.py:39-40 | a missing name answers the empty set when the subdir is not Windows or the name already has an extension |
| Find.ExactFindSpecSound | conda_suggest/find.py:30-43 | every answer is an entry of the file under one of the candidate names; without the fallback, the answers are exactly the entries for `exe` |
| Find.ExactFind | conda_suggest/find.py:30-43 | answers are entries of the file; in a sorted file they carry a candidate name; in a well-formed file they are exactly the entries for `exe`, else those for `exe.exe` and `exe.bat` on Windows, else none |
| Find.ProvidersInOrder | conda_suggest/find.py:43 | the list of entries for `exe` in file order holds exactly the entries for `exe` |
| Find.PyOr | conda_suggest/find.py:38 | the set operator raises `TypeError` exactly when an operand is not a set; otherwise the result holds exactly the elements of both |
| Find.ExactFindAsWritten | conda_suggest/find.py:30-43 | as written, with both searches run on any file: a list comes back only holding entries of the file, all for `exe` in a sorted file, and exactly when `exe` has entries once no package sorts below `" "`; a set comes back only empty; `TypeError` only on the Windows fallback; on a well-formed file the value is `AsWrittenAnswer` |
| Find.AsWrittenAnswer | conda_suggest/find.py:30-43 | the as-written value on a well-formed file: a list exactly when `exe` has entries, holding exactly those entries; a set only empty; `TypeError` only on the Windows fallback |
| Find.ProvidersInOrderSlice | conda_suggest/find.py:43 | when the entries for `exe` are exactly those from `left` to `right`, the slice `entries[left:right]` is them in file order |
| Find.FallbackAsWrittenRaises | conda_suggest/find.py:36-43 | on a well-formed file, as written, the fallback raises `TypeError` exactly when it would have found something |
| Find.FallbackAsWrittenExample | conda_suggest/find.py:38 | the file with only `foo.exe:foo` is well formed, and on `win-64` the lookup of `foo` raises as written and answers `{foo.exe:foo}` as intended |
| Find.Tag | conda_suggest/find.py:58 | the tagged results are exactly the found entries carrying the map file's channel and subdir |
| Find.ResolveStable | conda_suggest/find.py:46-52 | adding files to the cache never changes what a file name resolves to |
| Find.AnswerStable | conda_suggest/find.py:55-58 | adding files to the cache never changes a file's tagged answer |
| Find.Answer | conda_suggest/find.py:55-58 | a file's answer fails exactly when the file cannot be resolved |
| Find.UnionPrefixStep | conda_suggest/find.py:66 | one more successful answer adds its results to `finds` |
| Find.UnionPrefixFails | conda_suggest/find.py:64-66 | the accumulation fails exactly when one of the accumulated answers is an error |
| Find.UnionPrefixMembers | conda_suggest/find.py:64-66 | a successful accumulation holds exactly what some accumulated answer holds |
| Find.UnionPrefixErrorPersists | conda_suggest/find.py:64-66 | after the first error, later files do not change the outcome |
| Find.FirstErrorDecides | conda_suggest/find.py:64-66 | the first failed answer, after successful ones, is the outcome of the whole accumulation |
| Find.Answers | conda_suggest/find.py:65 | one answer per listed file |
| Find.AnswersAt | conda_suggest/find.py:65-66 | the `i`-th answer is the answer of the `i`-th listed file |
| Find.FindAllSpecFails | conda_suggest/find.py:61-67 | the lookup across files fails exactly when one listed file cannot be read |
| Find.FindAllSpecUnion | conda_suggest/find.py:61-67 | a successful lookup across files holds exactly the tagged answers of the listed files |
| Find.UnionAllSameAnswers | conda_suggest/find.py:64-66 | lists holding the same answers, in any order and number, accumulate to the same outcome |
| Find.FindAllOrderIndependent | conda_suggest/find.py:63-66 | the lookup across files depends only on the set of listed names, not on the order `glob` gives or on repetitions |
| Find.CachedGrows | conda_suggest/find.py:46-52 | after one lookup the cache holds a file exactly when it was cached or is readable; cached files keep their map files, only the looked-up file can be added, and it is added as it resolves |
| Find.CachedKeys | conda_suggest/find.py:46-52 | looking up a cached or present file leaves exactly the old files and that one cached |
| Find.CachedFromHolds | conda_suggest/find.py:65-66 | when every file from position `i` on is cached or present, the loop from there ends holding exactly the old files and those listed from `i` on |
| Find.CachedAllHolds | conda_suggest/find.py:65-66 | when every listed file is cached or present, the cache after the loop holds exactly the old files and the listed files |
| Find.MapFileCache.constructor | conda_suggest/find.py:8 | the cache starts empty |
| Find.MapFileCache.GetMapFile | conda_suggest/find.py:46-52 | returns the cached map file on a hit and leaves the cache alone; on a miss loads the file, stores it under its name if it loaded, and returns it or the read error |
| Find.MapFileCache.ExactFindInMapfile | conda_suggest/find.py:55-58 | fails exactly when the file cannot be resolved; otherwise answers entries of that file tagged with its channel and subdir, exactly the expected ones when it is well formed; the new cache is the old one plus the file when it was missing and readable |
| Find.MapFileCache.ExactFindListed | conda_suggest/find.py:65-66 | one loop turn answers the listed file's answer relative to the cache the loop started from; the loop from the next file on still ends with the same cache, and at an unreadable file the cache is already the final one |
| Find.MapFileCache.Accumulate | conda_suggest/find.py:64-67 | the loop fails exactly when the accumulated answers fail, with the first error; over well-formed files it answers their union; the cache ends as the fold of the lookups over the listed files |
| Find.MapFileCache.ExactFindAll | conda_suggest/find.py:61-67 | fails exactly when the lookup across files fails, with the same error; over well-formed files answers exactly the union of every file's tagged answers; the cache ends holding every listed file up to the first unreadable one |
| Generate.ExecutableName | conda_suggest/generate.py:21 | a path matches exactly when it starts with `bin/` or `Scripts/`; the group is the longest `/`-free text after the prefix |
| Generate.ExecutableNameOfBinFile | conda_suggest/generate.py:21 | `bin/python3` names `python3` |
| Generate.ExecutableNameOfSubdirectory | conda_suggest/generate.py:21 | `Scripts/lib/tool` names `lib` |
| Generate.ExecutableNameAnchored | conda_suggest/generate.py:72 | `re.match` is anchored: `lib/bin/tool` does not match |
| Generate.FileExecutablesHaveNoSlash | conda_suggest/generate.py:71-75 | no name collected from the paths contains `/` |
| Generate.CollectExecutables | conda_suggest/generate.py:70-75 | the loop collects exactly the names of the matching paths |
| Generate.EntryPointName | conda_suggest/generate.py:51-52 | the command name holds no `=` and has no surrounding whitespace; without `=` it is the stripped entry point |
| Generate.EntryPointNameOf | conda_suggest/generate.py:51-52 | the command of `head=tail`, for a head without `=`, is the stripped head |
| Generate.EntryPointNameExample | conda_suggest/generate.py:51-52 | `spam = mod:func` declares `spam` |
| Generate.StripOfSpam | conda_suggest/generate.py:52 | stripping `spam ` gives `spam` |
| Generate.AddInfoEntrypoints | conda_suggest/generate.py:39-52 | adds exactly the entry-point names of `noarch.entry_points`; nothing without `link.json` or `noarch` |
| Generate.NamesOfStep | conda_suggest/generate.py:51-52 | one more entry point adds exactly its command name |
| Generate.IsBz2Artifacts | conda_suggest/generate.py:62 | a `.tar.bz2` artifact is opened and a `.conda` artifact is not |
| Generate.DescribesUnique | conda_suggest/generate.py:78 | an artifact has one possible entry, because `sorted` of a set is fixed by the set |
| Generate.BuildArtifactEntry | conda_suggest/generate.py:55-79 | fails with `KeyError` exactly for a `.tar.bz2` archive without `info/files`; otherwise records the package name, and for `.tar.bz2` the sorted executables of paths and entry points, else none |
| Generate.ArtifactCache.constructor | conda_suggest/generate.py:96 | the cache starts empty |
| Generate.ArtifactCache.AddArtifact | conda_suggest/generate.py:55-79 | on success stores exactly the artifact's entry under its name and nothing else; on `KeyError` leaves the cache as it was |
| Generate.GetChannelName | conda_suggest/generate.py:82-83 | the channel name holds no `/`; a channel without `/` is its own name |
| Generate.GetChannelNameOfUrl | conda_suggest/generate.py:82-83 | the name of `base/name` is `name`, whatever the base |
| Generate.MapFileName | conda_suggest/generate.py:121 | the map file's name ends in `.map` |
| Generate.Kept | tests/test_generate.py:25-71 | the kept pairs are exactly the pairs whose executable no removal expression matches |
| Generate.KeptIncreasing | tests/test_generate.py:25-71 | removal keeps an increasing list increasing |
| Generate.EntryPairs | conda_suggest/generate.py:114-115 | an artifact without executables contributes no pairs |
| Generate.Render | conda_suggest/generate.py:117 | one `exe:pkg` line per pair, in order |
| Generate.TerminateLast | conda_suggest/generate.py:118 | the lines keep their number and all but the last line; the last gains a newline |
| Generate.JoinTerminateLast | conda_suggest/generate.py:118-119 | terminating the last line and joining with newlines ends every line with one newline |
| Generate.MapText | conda_suggest/generate.py:118-119 | the text is the lines each followed by a newline; no lines give the empty text |
| Generate.MapTextAsWritten | conda_suggest/generate.py:118-119 | as written, the text raises `IndexError` exactly on no lines, and is otherwise the lines each followed by a newline |
| Generate.MapTextAsWrittenDiffers | conda_suggest/generate.py:118 | the text as written agrees with the intended text except on no lines, where it raises `IndexError` and the intended text is empty |
| Generate.NothingKeptRaisesAsWritten | conda_suggest/generate.py:113-119 | when every executable of the cache is removed, there are no pairs: the text as written raises `IndexError` and the intended text is empty |
| Generate.NoExecutablesNoPairs | conda_suggest/generate.py:113-119 | a cache whose artifacts have no executables gives no pairs, and the text as written raises `IndexError` |
| Generate.CollectPairs | conda_suggest/generate.py:113-115 | the loop over the cache collects exactly the pairs some artifact provides |
| Generate.TerminatedEmpty | conda_suggest/generate.py:118-119 | newline-terminated lines make the empty text exactly when there are none |
| Generate.GenerateMap | conda_suggest/generate.py:110-121 | the pairs are exactly the distinct provided pairs not removed, strictly increasing; the text is their lines each newline-terminated, empty exactly when there are none; the name is `<channel name>.<subdir>.map` |
| Sorting.Insert | conda_suggest/generate.py:116 | inserting keeps a strictly increasing list strictly increasing, with the new element added |
| Sorting.SortSet | conda_suggest/generate.py:116 | `sorted` of a set is strictly increasing and holds exactly the set's elements |
| Sorting.IncreasingUnique | conda_suggest/generate.py:116 | a strictly increasing list is determined by its elements |
| Entries.LessIsStrictTotalOrder | conda_suggest/generate.py:116 | tuple order on pairs is a strict total order |
| Entries.StringLessIsStrictTotalOrder | conda_suggest/generate.py:78 | string order is a strict total order |
| Entries.IncreasingIsSorted | conda_suggest/find.py:33 | a strictly increasing list of pairs is sorted as the binary searches require |
| Entries.BetweenSameName | conda_suggest/find.py:33-43 | an entry between two entries for one executable is for that executable, so a sorted file keeps each executable's entries together |
| Strings.LessIrreflexive | conda_suggest/generate.py:116 | no string sorts before itself |
| Strings.LessTransitive | conda_suggest/generate.py:116 | string order is transitive |
| Strings.LessTotal | conda_suggest/generate.py:116 | any two strings are equal or one sorts before the other |
| Strings.SplitLines | conda_suggest/find.py:23 | no line holds a line boundary, and the text has no lines exactly when it is empty |
| Strings.SplitTerminated | conda_suggest/find.py:23 | `splitlines` of newline-terminated lines without line boundaries gives those lines back |
| Strings.Partition | conda_suggest/find.py:23 | the head holds no separator; without a separator the head is the whole string and the tail is empty |
| Strings.PartitionSplits | conda_suggest/find.py:23 | with a separator, head, separator and tail make up the string |
| Strings.PartitionFirst | conda_suggest/find.py:23 | `partition` splits at the first separator |
| Strings.AfterLast | conda_suggest/generate.py:83 | `rpartition(c)[2]` holds no `c` and is no longer than the string |
| Strings.AfterLastNoSeparator | conda_suggest/generate.py:83 | a string without `c` is its own `rpartition(c)[2]` |
| Strings.AfterLastPastSeparator | conda_suggest/generate.py:83 | `rpartition(c)[2]` is the text after the last `c`, whatever precedes it |
| Strings.AfterLastIsSuffix | conda_suggest/generate.py:83 | `rpartition(c)[2]` is a suffix of the string, preceded by `c` when shorter |
| Strings.Strip | conda_suggest/generate.py:52 | `strip` leaves the infix starting after the leading whitespace, with no whitespace at either end |
| RoundTrip.ParseRenderedLine | conda_suggest/find.py:23 | parsing a rendered `exe:pkg` line gives the pair back when `exe` has no `:` |
| RoundTrip.ParseRendered | conda_suggest/find.py:23 | parsing the rendered lines gives the pairs back |
| RoundTrip.RenderedHaveNoBreaks | conda_suggest/generate.py:117 | rendered lines of names without line boundaries have none |
| RoundTrip.ParseGenerated | conda_suggest/generate.py:117-119 | the generated text, split into lines and parsed, gives the generator's pairs back |
| RoundTrip.MapFileNameParses | conda_suggest/generate.py:120-121 | the name the generator gives a map file parses back to its channel name and subdir |
| RoundTrip.LoadGenerated | conda_suggest/find.py:14-23 | loading the generated file, under its bare name or from any directory, gives a map file of the generator's channel name and subdir whose entries are the generator's pairs, sorted |
| RoundTrip.GeneratedWellFormed | conda_suggest/find.py:30-43 | generated pairs whose packages lie between the sentinels are what the exact lookup is exact for |

## Left out

- Reading files, `glob`, `tarfile`, `json`, `tqdm` and printing. File contents
  are a map value, the list of map files is a parameter, and archives are given
  as their `info/files` lines and their parsed `link.json`.
- Writing the map file in `generate_map`. `Generate.GenerateMap` returns the
  name, the pairs and the text instead.
- `_get_repodata_packages`, `_save_cache`, `make_cache` and `generate`: these
  orchestrate I/O around the modelled operations. `SUBDIRS` is only used by
  `generate`.
- `conda_suggest/main.py` and `setup.py`. They are command-line handling and
  packaging.
- The regular-expression engine. `EXECUTABLE_RE` is written out as a matcher,
  and removal expressions are predicates on executable names.
  `DEFAULT_REMOVE_EXPRS`, which the tests import, is not defined in
  `generate.py` and is not part of this model.
- Decoding `info/files`. The archive's lines are already decoded strings, so
  `bytes.splitlines` and `.decode()` are not modelled.
- `link.json` shapes other than a missing file, a missing or `null` `noarch`,
  or a `noarch` mapping with an optional `entry_points` list. A `noarch`
  string, for example, would raise `AttributeError`.
- Other failures: `tarfile.open` on a missing or corrupt archive, and a package
  record without `"name"`. A map file that is present but undecodable is also
  left out; only a missing file raises `FileReadError`.
- Find.Basename: only POSIX paths are split. On Windows, `os.path.basename`
  also splits at `\`, which the model does not.
- Concurrency and object identity. `MAPFILES` hands out the same object on
  every hit; the model hands out an equal value.
- Find.ExactFind: exactness is stated only for well-formed files, meaning
  sorted files whose packages all lie between the sentinels. A line without
  `:` has the empty package, which sorts below `(exe, " ")`, so the search
  misses it, as in the source (`Find.SentinelRangeCharacterised`).
- Find.AsWrittenAnswer: the as-written value is given as a function only for
  well-formed files, where the two searches find exactly the providers.
  `Find.ExactFindAsWritten` runs the searches on any file, and equals it there.
- Find.FallbackAsWrittenRaises: stated for well-formed files only. On other
  files the searches can miss entries: on `win-64`, the file
  `[("foo.exe", "")]` gives `set() | set()` for `foo`, which does not raise.
- Find.MapFileCache.ExactFindAll: the exact answer is stated only when every
  listed file is well formed. Otherwise only the error behaviour is pinned
  down.
- Find.MapFileCache.ExactFindInMapfile: the exact answer is stated only when
  the file is well formed, for the reason above.
- Generate.GenerateMap: removal is applied to the sorted pairs. The
  expressions are predicates, so the model does not capture which names a
  given regular expression matches.

## Findings

| source | as written | input that shows it | evidently intended | confidence | as-written member | corrected member |
|---|---|---|---|---|---|---|
| conda_suggest/find.py:36-43 | with the `bisect` calls qualified and their arguments in order, the fallback unites `exact_find(exe + ".exe")` and `exact_find(exe + ".bat")` with the set operator, but a found name returns the list slice `self.entries[left:right]`, and that operator on a list raises `TypeError` | subdir `win-64`, entries `[("foo.exe", "foo")]`, lookup of `foo` | a set on every path, so the fallback answers `{("foo.exe", "foo")}` | high; not executed | Find.FallbackAsWrittenExample | Find.ExactFind |
| conda_suggest/generate.py:118 | `lines[-1] += "\n"` on an empty list raises `IndexError` | a cache whose pairs are all removed, as with the expression `.*` at tests/test_generate.py:64, or the cache `{"zict-0.0.3-py35_0.tar.bz2": {"executables": [], "package": "zict"}}` | the empty map text `""`, which tests/test_generate.py:64 expects | high; not executed | Generate.NothingKeptRaisesAsWritten | Generate.MapText |
