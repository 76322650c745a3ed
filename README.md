# Search paths and file resolution of CPython's `setup.py`

`setup.py` autodetects which optional extension modules of the standard
library can be built. Under its distutils plumbing sits a small core that
decides where headers and libraries are looked for and where they were
found. This project models that core in Dafny and proves its behaviour:

- `SearchPath` (`search_path.dfy`): `add_dir_to_list`, which inserts a
  directory into a search list such as `compiler.include_dirs` in place,
  and the loop of `detect_modules` that feeds the `-R`, `-L` and `-I`
  directories of LDFLAGS and CPPFLAGS through it in reverse order. The
  list is a class `DirList` whose methods update `entries`, each proved
  against the function `AddDirToList` or `AddReversed`.
- `FileSearch` (`file_search.dfy`): `is_macosx_sdk_path`, `find_file`,
  `find_library_file` and `find_module_file`, as functions over the
  directory lists, a `Platform` value (darwin or not, and the SDK root)
  and the set of existing paths.
- `BuildExt` (`build_ext.dfy`): `module_enalbed`, and the list handling
  in `build_extensions`: dropping disabled extensions, moving `_ctypes`
  to the end, and padding a report to rows of three.
- `PosixPath` (`posix_path.dfy`): the `os.path` helpers used above
  (`isabs`, `join`, `dirname`, `rstrip(os.sep)`, `s[1:]`), written out
  after posixpath.
- `Wrappers` (`wrappers.dfy`): `Option` for Python's `None`, `Result` for
  the failed assertion of `find_library_file`.

Where the model follows the code rather than its documentation:

- The docstring of `add_dir_to_list` (setup.py:49-50) says the directory
  goes "(after and relative directories)", which reads as "after any
  relative directories". The code inserts it right after
  the FIRST relative entry (setup.py:57-59), or at index 0 when every
  entry is absolute (setup.py:61). The model does what the code does.
  `DocstringOrderDoesNotHold` shows the difference on `[".", "Include"]`.
- Flag directories given as `-Ia -Ib` end up as `a, b`, in command-line
  order, because `reversed` feeds them in from the last to the first at a
  fixed position (`FlagDirsContiguous`; when the list has no relative
  entry, this is proved when every flag directory is absolute). When the
  list has no relative entry and some flags are relative, the last
  relative flag goes to the front and the others keep their command-line
  order (`LastRelativeFlagFirst`): `-Ia -Ib` gives `b, a`
  (`RelativeFlagDirsReversed`), `-Ia -Ib -Ic` gives `c, a, b`
  (`ThreeRelativeFlagDirs`).

Environment inputs, as parameters:

- `os.path.isdir` is the set `isDir`.
- `os.path.exists` is the set `present`.
- `host_platform == 'darwin'` and the SDK root that `macosx_sdk_root()`
  reads from CFLAGS (setup.py:88-99) are the `Platform` value.
- The path returned by `compiler.find_library_file(std_dirs + paths,
  libname)` (setup.py:149) is the parameter `found`.
- The directories that argparse extracts from the flags (setup.py:561-565)
  are the sequence `dirs`.

## Model

| member | source | states |
|---|---|---|
| `PosixPath.IsAbs` | setup.py:58 | no contract of its own: `os.path.isabs` holds exactly for a path starting with `/`; `FirstRelative` and `InsertPosition` state how `add_dir_to_list` uses it |
| `PosixPath.Join` | setup.py:128-131 | no contract of its own: posixpath's two-argument `join`; its properties are stated by `JoinParts` |
| `PosixPath.Join3` | setup.py:131 | no contract of its own: the three-argument `join` as two two-argument joins; `SdkProbeIsReRooted` states what it yields for an SDK path |
| `PosixPath.RStripAllSep` | setup.py:160 | `rstrip(os.sep)` turns a string made of separators only, such as `/`, into the empty string |
| `PosixPath.DropFirst` | setup.py:131 | `dir[1:]` is `dir` without its first character, and empty for the empty string |
| `PosixPath.JoinParts` | setup.py:128-131 | the joined path ends with the second part; a relative second part keeps the first part as a prefix; an absolute one replaces it |
| `PosixPath.RStripSep` | setup.py:160 | `p.rstrip(os.sep)` is the longest prefix of `p` that does not end in `/`; only separators were removed |
| `PosixPath.Dirname` | setup.py:157 | `os.path.dirname` gives a prefix of the path, and the empty string for a path without a separator |
| `PosixPath.DirnameOfJoin` | setup.py:149-157 | the directory part of `join(d, f)` for a plain file name `f` and a directory `d` not made of separators only is `d` stripped of trailing separators |
| `SearchPath.FirstRelative` | setup.py:57-58 | the index found by the `enumerate` scan is that of a relative entry with only absolute entries before it; none when all are absolute |
| `SearchPath.InsertPosition` | setup.py:57-61 | the index `add_dir_to_list` inserts at is within the list; every entry before the entry preceding it is absolute and that entry is relative; it is 0 only when every entry is absolute. `AddDirAtFront` and `AddDirAfterFirstRelative` state the resulting lists |
| `SearchPath.AddDirToList` | setup.py:48-61 | nothing changes when `dir` is None, not a directory or already listed; otherwise exactly one copy of `dir` is added and every old entry stays |
| `SearchPath.AddDirAtFront` | setup.py:61 | when every entry is absolute, `dir` goes to index 0 ahead of the unchanged list |
| `SearchPath.AddDirAfterFirstRelative` | setup.py:57-59 | when entry `i` is the first relative one, `dir` lands at `i + 1` and the old entries keep their order around it |
| `SearchPath.AddDirIdempotent` | setup.py:55 | adding a directory twice gives the same list as adding it once |
| `SearchPath.AddDirKeepsDistinct` | setup.py:55-61 | a list without duplicates stays without duplicates |
| `SearchPath.DocstringOrderDoesNotHold` | setup.py:48-59 | on `[".", "Include"]` an absolute directory lands between the two relative entries, not after both as the docstring says |
| `SearchPath.AddReversed` | setup.py:567-568 | feeding flag directories in reverse keeps every old entry, adds only flag directories, and adds at most one entry per flag |
| `SearchPath.InsertPositionStable` | setup.py:57-61 | inserting after the first relative entry, or inserting absolute entries, does not move the insertion point |
| `SearchPath.FlagDirsContiguous` | setup.py:566-568 | distinct new existing flag directories end up side by side, in command-line order, at the position `add_dir_to_list` uses (after the first relative entry, else at 0); the old entries are undisturbed. When the list has no relative entry, this is stated for absolute flag directories only; `LastRelativeFlagFirst` covers the other case |
| `SearchPath.AddFirstFlagDir` | setup.py:567-568 | the first flag directory, added last, goes directly in front of the flag directories added before it |
| `SearchPath.AddReversedAppend` | setup.py:567-568 | feeding `a + b` through the `reversed` loop feeds all of `b` first, then all of `a` |
| `SearchPath.AllAbsoluteInsertsAtFront` | setup.py:57-61 | a list of absolute entries only has no relative entry, so `add_dir_to_list` inserts at index 0 |
| `SearchPath.LastRelativeFlagFirst` | setup.py:566-568 | fed into an all-absolute list, distinct new existing flag directories `pre + [x] + post`, with `x` relative and every one of `post` absolute, give `[x] + pre + post + list`: the last relative flag goes to the front and the others keep their command-line order ahead of the old entries |
| `SearchPath.ThreeRelativeFlagDirs` | setup.py:566-568 | `-Ia -Ib -Ic` fed into an empty list gives `c, a, b`, not the reverse order |
| `SearchPath.RelativeFlagDirsReversed` | setup.py:567-568 | two relative flag directories fed into an all-absolute list, here the empty one, come out in reverse command-line order |
| `SearchPath.DirList.AddDir` | setup.py:48-61 | the `enumerate` loop and `insert` leave the list as `AddDirToList` describes |
| `SearchPath.DirList.AddFlagDirs` | setup.py:566-568 | the `reversed` loop over the flag directories leaves the list as `AddReversed` describes |
| `FileSearch.IsMacOSXSdkPath` | setup.py:101-107 | a path under `/usr/` but not `/usr/local`, or under `/System/` or `/Library/`; such a path is absolute and its second character is not a separator |
| `FileSearch.SdkRewriteWithDefaultRoot` | setup.py:95-96 | re-rooting an SDK path under the default root `/` gives back the path itself |
| `FileSearch.UsrLocalIsNotSdkPath` | setup.py:105 | no path starting with `/usr/local` (including names like `/usr/locale`) counts as an SDK path |
| `FileSearch.ProbePath` | setup.py:128-131 | no contract of its own: the path probed for a directory, re-rooted under the SDK on darwin for SDK paths; `ProbeDefaultRoot` and `SdkProbeIsReRooted` state where it points |
| `FileSearch.FirstTrue` | setup.py:127-143 | the early-return scan reports a true test with only false tests before it, and reports none only when every test is false |
| `FileSearch.FirstTrueIsFirst` | setup.py:127-143 | a true test with only false tests before it is the one the scan reports |
| `FileSearch.FirstHit` | setup.py:127-143 | the scan stops at the first directory whose probed path exists, and finds none only when no probed path exists (the per-directory outcomes come from the helper `Hits`) |
| `FileSearch.FirstHitIsFirst` | setup.py:127-143 | a directory that holds the file, with none before it that does, is the one the scan stops at |
| `FileSearch.FindFile` | setup.py:109-146 | `[]` exactly when a standard directory holds the file (standard directories win over extra ones); `None` exactly when neither list does; otherwise `[d]` for the first extra `d` that holds it, returned as given, not SDK-rewritten; never more than one directory |
| `FileSearch.FindFileDarwinDefaultRoot` | setup.py:120-140 | on darwin with the default root `/`, `find_file` answers exactly as on any other platform |
| `FileSearch.FirstHitDefaultRoot` | setup.py:127-143 | each scan of `find_file` finds the same directory on darwin with root `/` as elsewhere |
| `FileSearch.ProbeDefaultRoot` | setup.py:128-131 | on darwin with root `/`, every directory is probed at the same path as on any other platform |
| `FileSearch.SdkProbeIsReRooted` | setup.py:128-131 | on darwin with a non-empty SDK root that does not end in `/`, a system directory `d` is probed at `join(root + d, filename)`, inside the SDK |
| `FileSearch.FindFileProbesOnlyTheSdk` | setup.py:126-133 | on darwin with a non-empty SDK root that does not end in `/`, searching a single standard SDK directory and no extra directories finds the file exactly when its copy inside the SDK exists; a copy on the host alone is ignored |
| `FileSearch.FindFileExtraOnly` | setup.py:126-143 | a header only under the extra directory yields that directory; one also under the standard directory yields `[]` |
| `FileSearch.Matches` | setup.py:162-183 | no contract of its own: a stripped directory `p` matches `dirname` when it equals it or, on darwin for an SDK path, when `join(sysroot, p[1:])` equals it; `FirstMatch`, `FindLibraryFile` and `LibraryInSearchedDirIsClassified` state what follows |
| `FileSearch.FirstMatch` | setup.py:158-196 | the scan stops at the first directory that, stripped of trailing separators, is the library's directory directly or inside the SDK, and finds none only when no directory matches (the per-directory outcomes come from the helper `Matching`) |
| `FileSearch.FindLibraryFile` | setup.py:148-198 | `None` exactly when the compiler found nothing; `[]` exactly when a stripped standard directory matches; else `[p]` for the first matching stripped extra directory; the internal-error assertion fires exactly when nothing matches |
| `FileSearch.LibraryInSearchedDirIsClassified` | setup.py:148-198 | when the compiler returns `join(d, f)` for a searched directory `d` that is not made of separators only, the assertion cannot fire, and a standard `d` gives `[]` |
| `FileSearch.SeparatorOnlyDirsFail` | setup.py:157-198 | when the library is found at `join(d, f)` in a directory `d` made of separators only, such as `/` from `-L/`, the assertion fires whatever the other searched directories are: no stripped directory, direct or re-rooted under the SDK, ends in a separator as `d` does |
| `FileSearch.NoMatchOfSeparatorDir` | setup.py:160-183 | a directory stripped of trailing separators never matches a directory made of separators only, directly or through its SDK form |
| `FileSearch.LibraryInSdkDirIsClassified` | setup.py:157-196 | on darwin, when the compiler returns the library inside the SDK copy of a searched SDK directory, the assertion cannot fire, and a standard directory gives `[]` |
| `FileSearch.FindModuleFile` | setup.py:206-214 | the bare module name when no directory holds it, else `join(d, module)` for the first directory `d` that does |
| `BuildExt.Named` | setup.py:203 | the comprehension keeps exactly the extensions of the list that carry the name |
| `BuildExt.ModuleEnabled` | setup.py:200-204 | the count is at most the list length and is zero exactly when no extension carries the name; its exact value is stated by `ModuleEnabledCountsPositions` |
| `BuildExt.NamedCounts` | setup.py:203 | the comprehension keeps each extension carrying the name exactly as often as it occurs in the list, and no other extension |
| `BuildExt.ModuleEnabledCountsPositions` | setup.py:200-204 | `module_enalbed` returns the number of positions of the list whose extension carries the name |
| `BuildExt.NamedAppend` | setup.py:203 | the by-name comprehension distributes over concatenation |
| `BuildExt.Enabled` | setup.py:231-232 | the kept extensions are exactly those of the input whose name is not disabled |
| `BuildExt.EnabledCounts` | setup.py:231-232 | every extension that is not disabled is kept as often as it occurs; disabled ones are gone |
| `BuildExt.EnabledAppend` | setup.py:231-232 | the filter keeps the order of what it keeps: it distributes over concatenation |
| `BuildExt.LastNamed` | setup.py:234 | the index `ext_map` keeps for a name is that of its last occurrence |
| `BuildExt.MoveCtypesLast` | setup.py:235-237 | the result is a permutation of the input; it ends with a `_ctypes` extension when there is one, and is the input unchanged when there is none |
| `BuildExt.MoveCtypesKeepsOrder` | setup.py:233-237 | the last `_ctypes` extension goes to the end and every other extension keeps its relative order |
| `BuildExt.ModuleEnabledAfterOrdering` | setup.py:231-237 | after the reordering each name is carried as often as before, except disabled names, which are carried by none |
| `BuildExt.NamedAfterMove` | setup.py:235-237 | moving `_ctypes` to the end changes no count by name |
| `BuildExt.NamedOfEnabled` | setup.py:231-232 | a name is carried by as many kept extensions as before the filter, or by none when disabled |
| `BuildExt.LastIndexMapStep` | setup.py:234 | recording index `i` for the `i`-th name keeps `ext_map` mapping each seen name to its last index |
| `BuildExt.OrderExtensions` | setup.py:231-238 | the filter, the `ext_map` loop, `pop` and `append` produce `MoveCtypesLast(Enabled(exts, disabled))` |
| `BuildExt.PadToMultipleOfThree` | setup.py:317-319 | the padded list has a length divisible by three, starts with the original list, is padded only with empty strings, and is as short as possible |
| `BuildExt.Stride` | setup.py:320 | `lst[start::3]` holds the entries at `start`, `start + 3`, ... and has as many as fit |
| `BuildExt.Zip3` | setup.py:320 | `zip` of three lists is as long as the shortest and pairs entries index by index |
| `BuildExt.Rows` | setup.py:320 | the rows are the consecutive triples of the list; entries past the last full triple are dropped |
| `BuildExt.PaddedRowsKeepEveryEntry` | setup.py:317-320 | after the padding every original entry `3i + c` appears in row `i`, column `c`, and there are enough rows for all of them: zip drops nothing |
| `BuildExt.RowsCell` | setup.py:320 | for a list whose length is a multiple of three, entry `3i + c` is column `c` of row `i` |
| `BuildExt.UnpaddedRowsDropEntries` | setup.py:317-320 | without the padding, a four-entry list yields one row and loses its fourth entry |

## Left out

- Building and import-checking extensions (`build_extension`,
  `check_extension_import`, setup.py:376-459): compiler runs, dynamic
  loading and file renames.
- `add_multiarch_paths` and `add_gcc_paths` (setup.py:461-537):
  subprocesses and temporary files. They call `add_dir_to_list`, which is
  modelled.
- `macosx_sdk_root` and `sysroot_paths` (setup.py:63-99): they read
  sysconfig with regular expressions. The SDK root is a parameter of
  `Platform`; sysroot lists are given directly as `stdDirs`.
- Extracting `-R`, `-L` and `-I` arguments with argparse
  (setup.py:561-565): a library parser. The extracted directories are the
  input of `AddFlagDirs`.
- The darwin CFLAGS/LDFLAGS scan (setup.py:624-632), the static
  `Extension(...)` manifest (setup.py:599-716), the console report
  (setup.py:321-374) and the module-level setup (setup.py:19-43).
- The filesystem: `os.path.isdir` and `os.path.exists` are the sets
  `isDir` and `present`; how a relative path resolves against the working
  directory is part of those sets.
- `compiler.find_library_file` (distutils, not part of this model): its
  result is the parameter `found`; `LibraryInSearchedDirIsClassified` and
  `LibraryInSdkDirIsClassified` state what follows when it behaves.
- `FileSearch.LibraryInSearchedDirIsClassified`: does not cover a directory
  made of separators only, such as `/` from `-L/` in LDFLAGS. For such a
  directory `rstrip(os.sep)` (setup.py:160, 189) gives the empty string,
  which never equals the library's directory `/`, and no other searched
  directory can match it either, so the source's assertion (setup.py:198)
  fires even though `-L/` also leaves `/lib`, `/usr/lib` and the other
  standard directories in the list (setup.py:582-589);
  `SeparatorOnlyDirsFail` proves this for any searched directories. The
  model keeps the source's behaviour there rather than a corrected one.
- `FileSearch.FindLibraryFile`: models the failed assertion as a `Failure`
  with the source's message. Under `python -O` the assertion is stripped
  and the function returns `None`; that mode is not modelled.
- `FileSearch.FindModuleFile`: the `log.info` warning for several copies
  (setup.py:212-213) is not modelled; `FindFile` never returns more than
  one directory, so it cannot fire.
- `print_three_column` sorts with `key=str.lower` before padding
  (setup.py:316); case folding is not modelled, so `Rows` works on the list
  as already sorted. Printing the rows (setup.py:321-322) is I/O.
- The rest of `build_extensions` (setup.py:240-305): source-path fix-ups,
  the Setup-file built/disabled lists and compiler configuration, which
  work on distutils objects.
- Extensions are values, compared by name and sources. Python compares
  `Extension` objects by identity, which matters only outside the code
  modelled here.
- Version-bearing header scans (database and SQLite detection with
  version macros and accepted version ranges) are not in the modelled
  setup.py and are not part of this model.
