# explosive.fuse `DefaultMapper`: the namespace tree

`DefaultMapper` merges the entry names of one or more zip archives into a
single directory tree. A FUSE file system then serves that tree. The tree is a
nested dictionary:
- a dictionary value is a directory;
- a tuple `(archive_path, entry_name, size)` is a file leaf.

This project models that tree and the operations that build and read it:
- `mkdir` walks a list of fragments, creating the missing directories, and refuses to pass through a file leaf.
- `traverse` resolves a `/`-separated path.
- `readdir` lists a directory.
- `_load_infolist` merges the entries of one archive. Each entry name is optionally prefixed with the archive's base name, then split by a pathmaker. Its directories are created, and its leaf is written under the `overwrite` policy.

Modules:
- `Paths` (paths.dfy) — `str.split('/')` and `'/'.join`, and how they round-trip.
- `Tree` (tree.dfy) — the node datatype.
  - `Resolve` is the pure lookup behind `traverse`.
  - `EnsureDir` is the specification of `mkdir`: the tree after the call, or nothing when a file leaf is in the way.
  - `PutAt` writes a key into the directory at a path. It models the write through the aliased inner dictionary that `mkdir` returns.
  - `Extends` is "the tree only grew".
- `Mapper` (mapper.dfy) — the `DefaultMapper` class, with its `mapping` field and configuration.
  - `Mkdir` keeps the source's cursor loop and is proved against `EnsureDir`.
  - `LoadInfolist` keeps the entry loop and is proved against the fold `LoadAll` over the one-entry step `LoadEntry`.
  - The lemmas state the merge policy: skipping on conflict, first writer wins, overwrite, and directory entries.
- `Scenarios` (scenarios.dfy) — the cases of `tests/test_mapper.py` that concern the tree, restated as lemmas about the model.

The pathmaker is a parameter, a function from an entry name to `(fragments, leaf)`. A leaf of `""` stands for "no leaf", covering both `None` and the empty string, as the source's `if not filename` does. Each scenario constrains the pathmaker only on the names it feeds it.

Two behaviours of the code are worth spelling out:
- **Stored name.** The stored leaf records `info.filename`, not the prefixed name the pathmaker was given (mapper.py:86-89, 108). So with `include_arcname` the tree path starts with the archive's base name, but the leaf records the entry name as the archive spells it (`Scenarios.IncludeArcname`).
- **What `overwrite` replaces.** With `overwrite` on, the write replaces a directory of that name too, with everything under it. mapper.py:104-108 tests only `filename in target`, with no `isinstance` test (`Scenarios.OverwriteReplacesDirectory`).

## Model

| member | source | states |
|---|---|---|
| Paths.Join | src/explosive/fuse/mapper.py:56 | `'/'.join(frags)`: the fragments with one '/' between neighbours, `""` for no fragments |
| Paths.Split | src/explosive/fuse/mapper.py:70 | `str.split('/')` yields at least one piece, none of which contains '/' |
| Paths.SplitPath | src/explosive/fuse/mapper.py:70 | the fragment list of a path is empty exactly for the empty path |
| Paths.JoinSplit | src/explosive/fuse/mapper.py:70 | joining the pieces of a split with '/' gives back the path |
| Paths.SplitJoin | src/explosive/fuse/mapper.py:70 | splitting the '/'-join of slash-free fragments gives back the fragments |
| Paths.SplitPathJoin | src/explosive/fuse/mapper.py:70 | for fragments that contain no '/', `traverse('/'.join(frags))` walks exactly `frags`, except that `[""]` joins to the root path |
| Tree.Resolve | src/explosive/fuse/mapper.py:70-79 | the `traverse` walk over a fragment list: the starting node for no fragments; absent as soon as the node reached is a file or a directory lacking the next fragment; otherwise the node at the end |
| Tree.Children | src/explosive/fuse/mapper.py:150-153 | what `readdir` lists for a looked-up node: the keys of a directory, nothing for a file or a missing path |
| Tree.PutAt | src/explosive/fuse/mapper.py:108 | the write `target[k] = v` into the directory at path `p`, where `target` is the inner dictionary `mkdir` returned: the tree with that one directory's entry for `k` set to `v` |
| Tree.EnsureDir | src/explosive/fuse/mapper.py:39-63 | the tree after `mkdir(frags)`: each fragment that is missing along the walk becomes an empty directory, an existing directory is walked into, and a file met along the way makes the call fail (absent result) |
| Tree.ResolveAppend | src/explosive/fuse/mapper.py:73-77 | walking `p + q` is walking `p` then `q` from where `p` ended, failing if `p` fails |
| Tree.ResolveSnoc | src/explosive/fuse/mapper.py:150-153 | `p + [k]` resolves exactly when `k` is a key of the directory at `p`, and then to that key's node |
| Tree.ResolvePrefixStep | src/explosive/fuse/mapper.py:73-77 | a walk that starts through an existing first fragment continues from that child |
| Tree.ResolveNoneIff | src/explosive/fuse/mapper.py:73-77 | the lookup fails exactly when, at some fragment, the node reached is a file or a directory lacking that fragment |
| Tree.ExtendsResolve | src/explosive/fuse/mapper.py:59-61 | in a tree that only grew, every path that resolved still resolves, to a node that only grew |
| Tree.PutAtResolves | src/explosive/fuse/mapper.py:108 | after `target[k] = v` into the directory at `p`, the path `p + [k]` leads to `v` |
| Tree.PutAtElsewhere | src/explosive/fuse/mapper.py:108 | the write changes nothing on any path that is neither a prefix nor an extension of `p + [k]` |
| Tree.PutAtNewExtends | src/explosive/fuse/mapper.py:104-108 | writing a name the target directory lacks only adds to the tree |
| Tree.EnsureDirEmpty | src/explosive/fuse/mapper.py:59-61 | `mkdir` on an empty tree builds the chain of fresh, nested empty directories |
| Tree.EnsureDirExisting | src/explosive/fuse/mapper.py:49-50 | `mkdir` along a path that is already a directory changes nothing |
| Tree.EnsureDirResolves | src/explosive/fuse/mapper.py:39-63 | after a successful `mkdir(frags)` the path `frags` leads to a directory |
| Tree.EnsureDirIdempotent | src/explosive/fuse/mapper.py:39-63 | a second `mkdir(frags)` succeeds and leaves the tree as the first call left it |
| Tree.EnsureDirFailsIff | src/explosive/fuse/mapper.py:49-58 | `mkdir(frags)` fails exactly when some non-empty prefix of `frags` is a file leaf, the single fragment included |
| Tree.EnsureDirExtends | src/explosive/fuse/mapper.py:59-61 | `mkdir` removes and rebinds no key anywhere in the tree |
| Tree.EnsureDirElsewhere | src/explosive/fuse/mapper.py:46-61 | `mkdir(frags)` leaves every path apart from `frags + [leaf]` resolving exactly as before, missing paths included |
| Tree.EnsureDirNewPaths | src/explosive/fuse/mapper.py:59-61 | every path `mkdir` adds is a prefix of `frags` and leads to fresh empty directories for the rest of `frags` |
| Tree.EnsureDirAfterCreate | src/explosive/fuse/mapper.py:59-61 | inserting the empty directory for one missing fragment does not change the outcome of `mkdir` for the whole list |
| Mapper.EffectiveName | src/explosive/fuse/mapper.py:82-88 | the name given to the pathmaker: `basename + '/' + info.filename` with `include_arcname`, otherwise `info.filename` |
| Mapper.EntryPath | src/explosive/fuse/mapper.py:89 | the pathmaker applied to that name, giving the directory fragments and the leaf |
| Mapper.LoadEntry | src/explosive/fuse/mapper.py:89-108 | one iteration of the loop: skips the entry when `mkdir` fails; stops after `mkdir` for an empty leaf; keeps the tree `mkdir` left when the name exists and `overwrite` is off; otherwise writes `(archive_path, info.filename, info.file_size)` under the leaf name |
| Mapper.LoadAll | src/explosive/fuse/mapper.py:84-108 | the loop over `infolist`: the entries applied in list order, each through `LoadEntry`, to the tree the previous ones left |
| Mapper.DefaultMapper.constructor | src/explosive/fuse/mapper.py:21-35 | the mapper starts with an empty root and the given `overwrite`, `include_arcname` and pathmaker |
| Mapper.DefaultMapper.Mkdir | src/explosive/fuse/mapper.py:39-63 | succeeds exactly when `EnsureDir` does. On success, the new tree is `EnsureDir`'s, the result is the directory now at `frags`, and its keys are those previously at `frags`. On failure, the tree is unchanged and the error names the file fragment and the directory path holding it |
| Mapper.DefaultMapper.Traverse | src/explosive/fuse/mapper.py:65-79 | `traverse('')` is the root; the result is None exactly when the walk meets a file or a missing fragment |
| Mapper.DefaultMapper.Readdir | src/explosive/fuse/mapper.py:145-153 | a name is listed exactly when the fragments of `path` followed by that name resolve; nothing is listed for a file or a missing path |
| Mapper.DefaultMapper.LoadInfolist | src/explosive/fuse/mapper.py:81-108 | the tree after the loop is `LoadAll` of the entries over the old tree |
| Mapper.DefaultMapper.LoadArchive | src/explosive/fuse/mapper.py:110-129 | returns true exactly when the entry list could be read; then the entries are merged, otherwise the tree is unchanged |
| Mapper.ListingResolves | src/explosive/fuse/mapper.py:150-153 | the names a lookup lists are exactly those one step further down |
| Mapper.EnsureDirTarget | src/explosive/fuse/mapper.py:63 | the directory `mkdir` returns holds what was at `frags` before, or nothing when the path was new |
| Mapper.MkdirThenTraverse | src/explosive/fuse/mapper.py:39-79 | for fragments that contain no '/', after a successful `mkdir(frags)`, `traverse('/'.join(frags))` finds a directory. The restriction matters: `mkdir(['a/b'])` makes the key `a/b`, which `traverse('a/b')` cannot reach |
| Mapper.LoadEntryBlocked | src/explosive/fuse/mapper.py:90-98 | an entry whose directories run into a file leaf leaves the tree untouched |
| Mapper.LoadEntrySkipsExisting | src/explosive/fuse/mapper.py:104-107 | without `overwrite`, an entry whose leaf name is already in the target directory leaves the tree untouched |
| Mapper.LoadEntryWritesLeaf | src/explosive/fuse/mapper.py:100-108 | when the directories exist or can be made and the name is new or `overwrite` is on, the leaf path leads to `(archive_path, info.filename, info.file_size)` |
| Mapper.LoadEntryElsewhere | src/explosive/fuse/mapper.py:91-108 | loading an entry changes nothing on any path apart from its own leaf path: a path that resolved leads to the same node, and a path that did not resolve still does not |
| Mapper.LoadEntryDirectoryMarker | src/explosive/fuse/mapper.py:100-102 | an entry with no leaf only grows the tree, leaves a directory at its fragments when they can be made, and adds only prefixes of its fragments |
| Mapper.LoadEntryKeepsOccupants | src/explosive/fuse/mapper.py:104-107 | without `overwrite`, one entry only adds to the tree |
| Mapper.LoadAllKeepsOccupants | src/explosive/fuse/mapper.py:84-108 | without `overwrite`, a whole entry list only adds to the tree |
| Mapper.FirstWriterWins | src/explosive/fuse/mapper.py:104-107 | without `overwrite`, a file leaf keeps its `(archive, name, size)` whatever is loaded after it |
| Mapper.LoadAllBlocked | src/explosive/fuse/mapper.py:90-98 | a file leaf at `p` present before the list makes a list of entries that all lie under `p` a no-op |
| Mapper.LoadAllAppend | src/explosive/fuse/mapper.py:84-108 | loading `xs + ys` is loading `xs`, then loading `ys` into the result |
| Mapper.FirstWriterWinsWithin | src/explosive/fuse/mapper.py:104-107 | without `overwrite`, a file leaf written by the earlier entries of a list (or present before it) keeps its `(archive, name, size)` through the rest of the list |
| Mapper.BlockedWithin | src/explosive/fuse/mapper.py:90-98 | an entry under a file leaf that the earlier entries left at `p` is a no-op at its position, and loading goes on with the next entry: the list with it loads to the same tree as the list without it |
| Scenarios.LoadAtRoot | src/explosive/fuse/mapper.py:100-108 | a root-level leaf that is new, or any root-level leaf under `overwrite`, is written as `(archive_path, info.filename, info.file_size)` |
| Scenarios.LoadDirectoryEntry | src/explosive/fuse/mapper.py:100-102 | a directory entry for a new root-level name makes exactly one empty directory |
| Scenarios.LoadUnder | src/explosive/fuse/mapper.py:91-108 | a new leaf under an existing root-level directory is added to that directory and nothing else changes |
| Scenarios.NullTraverse | tests/test_mapper.py:28-31 | `traverse('')` on a fresh mapper is the root and `traverse('nowhere')` is None |
| Scenarios.MkdirTwice | tests/test_mapper.py:33-38 | `mkdir(['1','2','3'])` builds the three nested directories and a second call changes nothing |
| Scenarios.MkdirThroughFile | tests/test_mapper.py:40-54 | `mkdir` through the file `notdir` fails, for three fragments and for the single fragment |
| Scenarios.ReaddirRoot | tests/test_mapper.py:67-71 | the root of `{1: {}, notdir: file}` lists `1` and `notdir` |
| Scenarios.ReaddirFile | tests/test_mapper.py:72 | listing the file `notdir` gives nothing |
| Scenarios.ReaddirMissing | tests/test_mapper.py:73 | listing the missing `nowhere` gives nothing |
| Scenarios.ReaddirFresh | tests/test_mapper.py:56-60 | a fresh mapper lists nothing at the root, and after `mkdir(['1'])` the root lists `1` |
| Scenarios.MkdirOneTwo | tests/test_mapper.py:59-61 | `mkdir(['1'])` then `mkdir(['2'])` on a fresh tree gives two empty root directories |
| Scenarios.ReaddirNested | tests/test_mapper.py:56-65 | after `mkdir(['1'])`, `mkdir(['2'])` and `mkdir(['3','4','5'])` in turn, the root lists `1 2 3`, `3` lists `4`, and `3/4` lists `5` |
| Scenarios.LoadFlatStart | tests/test_mapper.py:75-89 | the first three flat entries of `demo1.zip` become three root-level leaves |
| Scenarios.LoadFlat | tests/test_mapper.py:75-89 | the six flat entries of `demo1.zip` become six root-level leaves recording the archive path, name and size |
| Scenarios.LoadNestedStart | tests/test_mapper.py:112-126 | `demo/` and the first three leaves of `demo2.zip` give directory `demo` with those three leaves |
| Scenarios.LoadNestedSixth | tests/test_mapper.py:112-126 | the fifth entry of `demo2.zip`, `demo/file6`, is added under `demo` |
| Scenarios.LoadNestedMore | tests/test_mapper.py:112-126 | the sixth entry of `demo2.zip`, `demo/file1`, is added under `demo` |
| Scenarios.LoadNested | tests/test_mapper.py:112-126 | all of `demo2.zip` gives one directory `demo` holding six leaves that record their full entry names |
| Scenarios.LoadDirFileConflict | tests/test_mapper.py:231-240 | a file `demo` loaded first blocks the entries of a later archive under `demo/`, and the tree stays that one leaf |
| Scenarios.LoadOverDummyKeeps | tests/test_mapper.py:552-570 | without `overwrite`, the names `file5` and `file6` already present keep their dummy leaves and `file1` is added |
| Scenarios.LoadOverDummyReplaces | tests/test_mapper.py:572-590 | with `overwrite`, `file5` and `file6` are replaced by the new archive's leaves, and `file7` stays |
| Scenarios.OverwriteReplacesDirectory | src/explosive/fuse/mapper.py:104-108 | with `overwrite`, a leaf named like an existing directory replaces the directory and everything under it |
| Scenarios.IncludeArcname | src/explosive/fuse/mapper.py:85-89 | with `include_arcname`, the tree path starts with the archive's base name, but the leaf records the un-prefixed entry name |

## Left out

- Reading the archive (`ZipFile(...).infolist()`, `BadZipFile`, missing files and other exceptions) is not modelled. `LoadArchive` receives the entry list, or `None` when it could not be read.
- Mapper.DefaultMapper.LoadArchive: an exception raised partway through `_load_infolist`, for example by the pathmaker, is not modelled. The source's catch-all (mapper.py:116-129) then returns `False` with the tree partly merged. The model's pathmaker is a total function, so `false` always means the tree is unchanged.
- `readfile` streams bytes out of an archive, which is I/O through the zip library. It is not modelled.
- The `pathmaker` module is not part of this model. The pathmaker is an abstract function, and the `pathmaker_name` lookup is replaced by passing that function to the constructor.
- The constructor's defaults are not modelled: `pathmaker_name='default'`, `overwrite=False`, `include_arcname=False` (mapper.py:21-22). The model's constructor takes all three explicitly.
- `os.path.basename` is not modelled. The archive's base name is a separate parameter next to the archive path.
- The constructor's optional `path` argument only calls `load_archive`. Callers call `LoadArchive` after construction instead.
- Logging, and the text of the `ValueError` raised by `mkdir`, are not modelled. The error is a `FileEntryExists(fragment, path)` value.
- Dictionary key order is not modelled. `Readdir` returns the set of names, where the source returns a list in insertion order.
- Object identity is not modelled. The source shares one archive-path string among leaves and returns the very inner dictionary it created. The model works on values, so `Mkdir` returns a copy of the directory, and `LoadInfolist` writes through `PutAt` at the same path.
- The unload operation and its bookkeeping (`_unload_infolist`, `archives`, `archive_ifilenames`, `reverse_mapping`) are not modelled. The test file exercises them, but `src/explosive/fuse/mapper.py` defines none of them.
- Scenarios.LoadOverDummyKeeps: covers only the entries `file1`, `file5` and `file6` of `demo1.zip`, not all six. `file2` to `file4` behave as `file1` does (`Scenarios.LoadFlat`, `Mapper.LoadEntryWritesLeaf`).
- Scenarios.LoadOverDummyReplaces: covers the same three entries as `Scenarios.LoadOverDummyKeeps`.
- Scenarios.LoadDirFileConflict: loads only the entries `demo/`, `demo/file1` and `demo/file2` of `demo2.zip`. `Mapper.LoadAllBlocked` covers any number of entries under `demo/`.
