# DirTreeJson manifest builder, modelled in Dafny

DirTreeJson scans a directory tree and writes a JSON manifest. The manifest
has two lists:

- `dirs` holds one entry for each non-root directory that survives the
  ignore list. Each entry has a name, a root-relative path and its files.
- `files` holds the entries of the files directly under the root.

Every file entry has a name, a forward-slash path, a size, and two raw
download URLs: `<github repo>/raw/main/<path>` and
`<gitee repo>/raw/main/<path>`.

This project models the three functions of `src/main.py`:

- `generate_directory_structure`, the walk with its pruning and filtering;
- `create_file_entry`, the per-file record and its URLs;
- `load_ignore_list`, the filter over the lines of the ignore file.

It then proves what the manifest says about the tree it was built from.

The filesystem is replaced by a value. A `FileTree.Dir` holds a name, its
files and its subdirectories, all in listing order. A `FileTree.FileNode`
holds a name and a size. The size is `None` when `os.path.isfile` would be
false, and such a file is given size 0.

A `FileTree.Host` chooses `os.sep`: `/` on POSIX, `\` on Windows. This is
the separator `os.path.relpath` and `os.path.join` put into relative paths,
and the reason for the source's `replace("\\", "/")`.

## Structure

| file | module | what it holds |
|---|---|---|
| `wrappers.dfy` | `Wrappers` | `Option` |
| `text.dfy` | `Text` | `str.replace` of backslashes, `str.strip` (Python's whitespace set), `startswith`, substring test, `sep.join`, last path segment |
| `tree.dfy` | `FileTree` | the directory tree, paths of child indices into it, pruning along a path |
| `walk.dfy` | `Walk` | `os.walk` top-down with in-place pruning of `subdirs`: its explicit stack and the pre-order it produces |
| `file_entry.dfy` | `FileEntries` | `create_file_entry` |
| `ignore_list.dfy` | `IgnoreList` | `load_ignore_list` over lines already read |
| `manifest.dfy` | `Manifests` | `generate_directory_structure` as a method with the walk's loop, and the fold that specifies it |
| `properties.dfy` | `ManifestProperties` | which directories and files the manifest holds, and the shape of each path and URL |

`Manifests.GenerateDirectoryStructure` runs the loop of `os.walk` as Python
3.12 does. The walk keeps a stack of pending directories. On each iteration
it yields the top, removes it, and pushes the kept subdirectories so that
the first one listed is entered next.

The method is proved equal to `Manifests.Structure`, which is a fold of
`Manifests.Step` over `Walk.Visits`. `Walk.Visits` is the recursive
pre-order walk with pruning. The loop invariant states that the directories
done so far, followed by the pending walk, make the whole walk.

The properties are then proved about `Structure`:

- what pruning leaves in (`Walk.RootWalk`);
- one entry per surviving directory (`ManifestProperties.DirsAreSurvivingDirectories`);
- the asymmetric file rules (`RootFileRule` and `DirFileRule`);
- the shape of paths and URLs (`DirEntryShape`, `ManifestWellFormed`).

A directory is identified by its position `p`, the sequence of child
indices from the root. `NamesAlong(root, p)` gives the names on the way to
it. These are the segments of its relative path.

## Model

| member | source | states |
|---|---|---|
| Manifests.GenerateDirectoryStructure | src/main.py:5-48 | The loop over the walk's stack yields exactly `Structure(root, cfg)`, the fold of the per-directory step over the pruned pre-order walk. `ignore_list=None` counts as the empty list. |
| Manifests.Structure | src/main.py:5-48 | The specification of the whole call: the manifest folded from every iteration of the pruned walk from the root. The properties below are proved about it. |
| Manifests.Collect | src/main.py:9-46 | Starting from empty `dirs` and `files`, the iterations are applied in walk order, each to the result of the ones before it. |
| Manifests.Step | src/main.py:15-46 | One iteration: the root adds its file entries to `files`. A non-root directory whose name is an ignore entry adds nothing. Any other directory appends its entry to `dirs`. |
| Manifests.DirEntryOf | src/main.py:29-46 | A non-root directory's entry: its basename, its relative path with slashes, and the entries of its kept files, built from the unreplaced relative path. |
| Manifests.RootEntries | src/main.py:24-27 | The root's file loop: an entry, with the name as path, for each kept file that no ignore entry occurs in, in order. `RootFileRule` characterises it. |
| Manifests.RootFileEntry | src/main.py:27 | `create_file_entry(file, file, ...)`: a root file's relative path is its own name. |
| Manifests.DirFileEntries | src/main.py:39-44 | A non-root directory's file loop: one entry for each kept file not named in the ignore list, in order. `DirFileRule` characterises it. |
| Manifests.DirFileEntry | src/main.py:43-44 | The entry of a file below the root. Its path is `os.path.join(rel_dir, file)`, joined with the host's separator, with backslashes then turned into slashes. |
| Manifests.ContainsAny | src/main.py:26 | `any(ignore in file for ignore in ignore_list)`: some ignore entry occurs in the name as a substring. |
| Manifests.RootFileLoop | src/main.py:23-27 | The root's files loop returns the entries of the kept root files that no ignore entry occurs in, in listing order. |
| Manifests.DirFileLoop | src/main.py:39-44 | A non-root directory's files loop returns one entry per kept file whose name is not an ignore entry. The entry's path is `os.path.join(rel_dir, file)` with slashes. |
| Manifests.KeptFiles | src/main.py:21 | A file survives the first filter if and only if it is listed and its name is not exactly an ignore entry. |
| Manifests.BaseName | src/main.py:29 | `os.path.basename(current_dir)`: the last name on the path from the root. A name holds no separator, so this is the last component basename returns. |
| Manifests.KeptFilesAppend | src/main.py:21 | The filter works file by file: filtering a concatenation is concatenating the filtered parts, so listing order is kept. |
| Manifests.ExactMatchContains | src/main.py:26 | A name that equals an ignore entry also contains it, so the root's substring test also excludes exact matches. |
| Manifests.CollectSnoc | src/main.py:14-46 | The manifest after one more iteration is the step of that iteration applied to the manifest so far. |
| Walk.ChildrenFromFacts | src/main.py:19 | After pruning, `subdirs` holds exactly the children whose names are not ignore entries, each once, in listing order. |
| Walk.ChildrenFrom | src/main.py:19 | The pruning comprehension from child `j` on: the children not named in the ignore list, in listing order, each with its path names and indices. |
| Walk.Children | src/main.py:19 | `subdirs` after pruning: the children the walk enters after the current directory. |
| Walk.Visits | src/main.py:14-19 | `os.walk` top-down with pruning: the directory itself, then the walks of its kept subdirectories in listing order. `RootWalk` characterises it. |
| Walk.VisitsList | src/main.py:14-19 | The walks of a list of kept subdirectories, one after another. |
| Walk.ChildrenFromComplete | src/main.py:19 | Every child whose name is not an ignore entry stays in `subdirs`. |
| Walk.ChildrenFromOrdered | src/main.py:19 | The kept children keep their listing order. |
| Walk.WalkStep | src/main.py:14 | One iteration of `os.walk` finishes the top directory and replaces it on the stack by its kept subdirectories. The walk still to come is unchanged. |
| Walk.StackShrinks | src/main.py:14 | Each iteration shrinks the pending part of the tree, so the walk ends. |
| Walk.RootWalk | src/main.py:14-19 | The walk starts at the root. It visits only directories with no ignore entry among the names on their path, visits each at most once, and visits every such directory. |
| Walk.VisitsDistinct | src/main.py:14 | No directory is visited twice. |
| Walk.VisitsSound | src/main.py:14-19 | Every visited directory lies below the start on a path that the pruning keeps, and carries that path's names and indices. |
| Walk.VisitsComplete | src/main.py:14-19 | Every directory below a visited one that survives the pruning is visited. |
| ManifestProperties.DirNameCheckNeverFires | src/main.py:29-31 | The walk never enters an ignored directory, so the `dir_name in ignore_list` test never skips an iteration. |
| ManifestProperties.DirsFollowWalk | src/main.py:28-46 | `dirs` has one entry per iteration after the root's, in walk order. |
| ManifestProperties.FilesFromRoot | src/main.py:23-27 | `files` comes only from the root's own files. |
| ManifestProperties.CollectDirs | src/main.py:28-46 | Folding the iterations gives one `dirs` entry per non-root iteration. |
| ManifestProperties.CollectFiles | src/main.py:23-27 | Folding the iterations gives the root iteration's file entries as `files`. |
| ManifestProperties.DirsAreSurvivingDirectories | src/main.py:14-46 | Each `dirs` entry is the entry of a distinct non-root directory with no ignore entry on its path. Every such directory has exactly one entry, even without files. |
| ManifestProperties.IgnoredSubtreeAbsent | src/main.py:19 | A directory named in the ignore list has no entry, and neither does anything below it. |
| ManifestProperties.FileOfSurvivingDirectory | src/main.py:39-46 | Every file entry under `dirs` is the entry of a non-ignored file of a surviving directory. No file below a pruned directory appears. |
| ManifestProperties.RootFileRule | src/main.py:21-27 | A root-level file is in `files` if and only if no ignore entry occurs in its name as a substring. |
| ManifestProperties.RootFilesSound | src/main.py:23-27 | Every entry of `files` is the entry of a root-level file that passes the substring test. |
| ManifestProperties.RootFileShape | src/main.py:27 | A root file's entry has the file's name and size. Its path is the name, with backslashes turned into slashes. |
| ManifestProperties.EmptyEntryHidesRootFiles | src/main.py:26 | An empty ignore entry occurs in every name, so it empties `files`. |
| ManifestProperties.FileNameCheckNeverFires | src/main.py:39-41 | Files were already filtered at line 21, so the `file in ignore_list` test never skips one. Every kept file gets an entry, in order. |
| ManifestProperties.DirFileShape | src/main.py:43-44 | Inside a directory, a file's path is the directory's path, a `/` and the file name with slashes. The name and size come from the file. |
| ManifestProperties.DirEntryShape | src/main.py:29-46 | A directory entry has the directory's own name and its root-relative path with forward slashes only. Its files are the kept files, in order, each under the directory's path. |
| ManifestProperties.DirFileRule | src/main.py:39-44 | A file of a surviving non-root directory is listed in that directory's entry if and only if its name is not exactly an ignore entry. |
| ManifestProperties.ParentPath | src/main.py:35 | A directory's path is its parent's path, a `/` and its own name. |
| ManifestProperties.DirPathEndsWithName | src/main.py:29-35 | When a directory's name holds no slash of either kind, the last segment of its path is its name. |
| ManifestProperties.ManifestWellFormed | src/main.py:35-59 | No path in the manifest holds a backslash. Every file entry's URLs are the repository address, `/raw/main/` and its path. |
| ManifestProperties.NoBackslashInManifest | src/main.py:56-59 | When the repository addresses hold no backslash, no path or URL in the manifest holds one. |
| FileEntries.CreateFileEntry | src/main.py:50-60 | The entry keeps the given name. Its path is the relative path with slashes. Its size is the file's size, or 0 when it is not a regular file. Both URLs are the repository address, `/raw/main/` and that path. |
| FileEntries.CreateFileEntryWellFormed | src/main.py:56-59 | Every created entry is well formed: a backslash-free path and URLs built from it. |
| FileEntries.NoBackslashInUrls | src/main.py:58-59 | A well-formed entry has no backslash in its URLs when the repository addresses have none. |
| FileEntries.RawUrlInjective | src/main.py:58-59 | The URL determines the path: two paths with the same URL under one repository are equal. |
| FileEntries.PathFromRawUrl | src/main.py:58-59 | The path is what follows the repository address and `/raw/main/` in the URL. |
| FileEntries.RawUrl | src/main.py:58-59 | The f-string `{repo}/raw/main/{path}`. `PathFromRawUrl` and `RawUrlInjective` show the path can be read back from it. |
| FileTree.Host.Sep | src/main.py:43 | `os.sep`, the separator that `os.path.relpath` and `os.path.join` put in relative paths: `/` on POSIX, `\` on Windows. |
| IgnoreList.LoadIgnoreList | src/main.py:62-66 | A missing file gives `[]`. An existing file gives exactly `Entries` of its lines, so `EntriesMembership`, `EntriesAppend` and `IndentedHashKept` apply to the result. Every returned entry is non-empty, has no whitespace at either end, and is its own strip. |
| IgnoreList.EntriesArePatterns | src/main.py:65 | Every entry the comprehension returns is non-empty and has no surrounding whitespace. |
| IgnoreList.Entries | src/main.py:65 | The comprehension over the lines: the stripped lines the filter keeps, in file order, never more than there are lines. |
| IgnoreList.Keeps | src/main.py:65 | The comprehension's filter: the stripped line is non-empty, and the unstripped line does not start with `#`. |
| IgnoreList.EntriesMembership | src/main.py:65 | A string is returned if and only if some line that is not blank once stripped, and does not begin with `#` as read, strips to it. |
| IgnoreList.EntriesAppend | src/main.py:65 | Lines are filtered one by one, and file order is kept. |
| IgnoreList.CommentLineDropped | src/main.py:65 | A raw line beginning with `#` contributes nothing. |
| IgnoreList.IndentedHashKept | src/main.py:65 | The comment test looks at the unstripped line. A `#` after leading whitespace is kept, and the entry then begins with `#`. |
| Text.Replace | src/main.py:35 | `replace("\\", "/")` keeps the length, maps each character, and leaves no backslash. |
| Text.ReplaceIdempotent | src/main.py:43-56 | Replacing twice is replacing once. `create_file_entry` replaces a path the walk has already replaced. |
| Text.ReplaceAppend | src/main.py:43 | Replacing distributes over concatenation. |
| Text.Strip | src/main.py:65 | `strip()` returns a slice of the line with only whitespace outside it. When that slice is non-empty, it has none at either end. |
| Text.StartsWith | src/main.py:65 | `line.startswith("#")`: the prefix as long as the pattern equals the pattern. |
| Text.IsSubstring | src/main.py:26 | `ignore in file`: the pattern occurs in the string at some index. |
| Text.IsSpace | src/main.py:65 | The characters for which Python's `str.isspace` holds. These are the ones `strip()` with no argument removes. |
| Text.StripLeft | src/main.py:65 | Leading whitespace removed: a suffix of the line with only whitespace before it, and none at its start. |
| Text.StripRight | src/main.py:65 | Trailing whitespace removed: a prefix of the line with only whitespace after it, and none at its end. |
| Text.StripIdempotent | src/main.py:65 | Stripping a stripped line changes nothing. |
| Text.JoinPath | src/main.py:15-17 | The joined relative path is empty exactly when there are no segments (the root) or only an empty one. |

## Left out

- `os.walk`, `os.path.isfile` and `os.path.getsize` are replaced by the `Dir` value: its listing order is the walk's order, and each `FileNode` carries its size. `os.path.relpath` and `os.path.join` are modelled by `Text.JoinPath` over the names on the path with the host's `os.sep`, and `os.path.basename` by `Manifests.BaseName`, the last of those names.
- Symbolic links, and directories `os.walk` cannot list (its default `onerror=None` skips them silently), are outside the model. A tree value has neither.
- Directory names are assumed non-empty, since no filesystem has an empty name. The model does not check this: `FileTree.Dir` accepts an empty name. Under that assumption the test `rel_dir == ""` (after `"."` is turned into `""`) holds exactly at the root, and the model tests for the root directly.
- `CreateFileEntry`: the size of a file is the `FileNode`'s own size. For a file below the root, the source looks the size up at the path after backslashes were replaced. On POSIX, a name holding a backslash then points at a different path, usually a missing one, which gives size 0. The model does not capture that.
- On POSIX, a name holding a backslash keeps it in `name` but not in `path`. The model states this as written (`DirEntryShape`, `RootFileShape`). `DirPathEndsWithName` therefore asks for names without either slash.
- The f-strings at src/main.py:58-59 hold a backslash inside a replacement field. This is legal only from Python 3.12, which the model assumes.
- `load_ignore_list`: opening and reading the file (lines 63-64) is left out. The model takes the file's lines, terminators included, or `None` when the file does not exist. The default file name `.ignorelist` is relative to the working directory, not to the scanned root.
- The `__main__` block (src/main.py:68-91) is I/O only: argv, interactive input, the fixed repository addresses, `json.dump` and printing, and `sys.exit` on a missing root.
- Other versions of DirTreeJson merge a default ignore set with the file, read the ignore file from the scanned root, flatten paths for flat backends, percent-encode URLs and take a configurable list of backends. `src/main.py` does none of these, so neither does the model. URLs join the repository address, `/raw/main/` and the raw path, with no encoding and no trimming of a trailing slash.
