# MiniShell's virtual file system, in Dafny

MiniShell is a small interactive shell that keeps a whole file system in
memory. A tree of directories and text files hangs off a root directory
whose name is empty, and a current directory moves around it. This project
models the core behind the shell's commands and proves properties of that
model. The core covers:

- path handling: `validatePath`, `split`, and the KMP substring search in
  `Utility/Utils.hpp`;
- the `Directory` and `File` node operations;
- `FileSystemManager`: `pwd`, `cd`, `ls`, `mkdir`, `rmdir`, `rm`, `touch`,
  `write`, `cat`, `cp`, `mv`, `grep`, and the JSON export.

The model is functional:

- A node is `File(content)` or `Dir(children)`, where `children` is a map
  from names to nodes. A node is identified by the path of names that leads
  to it from the root.
- The file system is the root node plus the path of the current directory.
- Every command is a function from a state to `Result<_>`. A failure is
  `Err(e)`, where `e` is one of the exception kinds the source throws
  (`InvalidPathException`, `DirectoryDoesNotExist`, ...). A failing command
  changes nothing.

Modules, one per source unit:

| module | file | models |
|---|---|---|
| `Errors` | errors.dfy | the exception kinds, `Option`, `Result`, `Outcome` |
| `PathUtils` | utils.dfy | `validatePath`, `split`, and a `Join` that undoes `split` |
| `Kmp` | kmp.dfy | `KMPSolver::solve`: the prefix table and the search |
| `Tree` | tree.dfy | nodes, lookup by path, and replacing a subtree along a path |
| `Directory` | directory.dfy | the `Directory` methods on a directory's entry map |
| `FileNode` | file.dfy | `File::write` |
| `Manager` | manager.dfy | `FileSystemManager`: navigation and the shell commands |
| `Search` | search.dfy | `grep` and `dfsAndGrep` |
| `Export` | export.dfy | `convertToJson` and `directoryToJson` |

Where the documentation and the code disagree, the model follows the code:

- **`.` and `..` are recognised only at the front of a path.**
  `validatePath` consumes `./`, `../`, and a final `.` or `..` only at the
  start. A `.` or `..` further in stays in the rest and is then looked up as
  a name. So `a/./b` is not `a/b`; it fails unless a directory is named
  `.`, which `mkdir` forbids (`Manager.InnerDotIsNotFolded`).
- **`getSize` counts every entry below a directory.** The header describes
  it as counting children, but `Directory::getSize` adds each
  subdirectory's own size as well (`Directory.GetSize`).
- **A recursive `grep` from `/` starts each hit with an empty name.** The
  hits are built from the root's empty name, so a hit reads `/x/y/f.txt`
  rather than `x/y/f.txt` (`Search.DirName`).
- **`validatePath` has two dead statements.** After a final `..` or `.`, it
  skips a following `/`. That can never happen, because `../` and `./` are
  matched first. The model leaves the skip out; `PathUtils.ConsumeSteps`
  notes it.

## Model

`Manager.CopyFile`, `Manager.CopyDir`, `Manager.MoveFile`, `Manager.MoveDir`
and `PathUtils.ConsumeSteps` carry no contract of their own: the lemmas about
them in the table below (`CopyFileFacts`, `CopyDirFacts`, `MoveFileFacts`,
`MoveFileFrame`, `MoveDirRelocates`, `MoveDirFrame` and the `Consume` lemmas)
are their specification.

| member | source | states |
|---|---|---|
| PathUtils.ValidatePath | Utility/Utils.hpp:16-66 | fails with an invalid-path error exactly on the empty path; never yields the INVALID start; starts at the root exactly when the path begins with `/`; the rest it returns does not begin with a `./`, `../`, `.` or `..` step |
| PathUtils.RestIsTail | Utility/Utils.hpp:61-63 | the rest is a suffix of the path: the prefix loop only moves forward and the rest is everything after it |
| PathUtils.ConsumeLeavesSuffix | Utility/Utils.hpp:35-56 | the step loop stops at a suffix of its input that does not begin with another step |
| PathUtils.ConsumedIsRendered | Utility/Utils.hpp:35-56 | whatever the loop consumed is a sequence of `./` and `../` steps, optionally ending in a final `.` or `..`, and the count of ups is the number of `..` steps in it |
| PathUtils.ConsumeRendered | Utility/Utils.hpp:35-56 | conversely, any sequence of steps followed by a rest that is not a step is consumed back into that ups count and that rest |
| PathUtils.WorkedExampleRoot | Utility/Utils.hpp:23-26 | `/../../.` is a root path with two ups and an empty rest |
| PathUtils.WorkedExampleUps | Utility/Utils.hpp:36-42 | `.././../../file.txt` has three ups and the rest `file.txt` |
| PathUtils.ScanDotDot | Utility/Utils.hpp:43-47 | `..` alone is one up with an empty rest |
| PathUtils.WorkedExamplePlain | Utility/Utils.hpp:31-33 | `foo/bar` is a current-relative path with no ups and the whole text as rest |
| PathUtils.Split | Utility/Utils.hpp:68-79 | every piece is non-empty and holds no `/` |
| PathUtils.SplitIsNonEmptyFields | Utility/Utils.hpp:74-76 | split is the `/`-separated fields with the empty ones dropped, and joining the fields gives the input back |
| PathUtils.SplitJoin | Utility/Utils.hpp:68-79 | splitting the `/`-join of non-empty names without `/` gives the names back |
| Kmp.ComputeLps | Utility/Utils.hpp:85-100 | the table holds, for every prefix of the pattern, the length of its longest proper border |
| Kmp.SkippedStarts | Utility/Utils.hpp:105-116 | falling back to a border skips no start at which the pattern occurs |
| Kmp.Solve | Utility/Utils.hpp:81-120 | for a non-empty pattern, the answer is true exactly when the pattern occurs somewhere in the text |
| Directory.GetSize | src/Directory.cpp:4-13 | for a directory, the number of entries anywhere below it; for a file, its length |
| Directory.SizeZeroIffEmpty | src/Directory.cpp:4-13 | a directory's size is zero exactly when it has no entries |
| Directory.Mkdir | src/Directory.cpp:15-28 | an empty, dot-leading or slash-holding name is rejected as invalid; a taken name fails with already-exists; otherwise exactly one empty directory is added and nothing else changes |
| Directory.MkdirThenRmEmptyDir | src/Directory.cpp:15-47 | removing the directory just made restores the entries |
| Directory.MkdirTwice | src/Directory.cpp:15-28 | making the same directory twice fails the second time with already-exists |
| Directory.RmEmptyDir | src/Directory.cpp:30-47 | a missing name, a file and a non-empty directory each fail with their own error; otherwise exactly that entry is removed |
| Directory.RmEntireDir | src/Directory.cpp:49-62 | a missing name and a file fail; otherwise the directory and everything below it are removed, nothing else |
| Directory.RemovalsAgree | src/Directory.cpp:30-77 | where removing an empty directory succeeds, the recursive removal does the same and removing it as a file fails |
| Directory.RmFile | src/Directory.cpp:64-77 | a missing name and a directory fail; otherwise exactly that file is removed |
| Directory.CreateOrUpdateFile | src/Directory.cpp:84-95 | fails only on a directory of that name; an existing file is left as it is, a new name gets an empty file |
| Directory.CreateOrUpdateFileIdempotent | src/Directory.cpp:84-95 | touching twice is touching once |
| Directory.AddChild | src/Directory.cpp:98-108 | fails exactly when the name is taken; otherwise adds only that entry |
| Directory.AddChildAfterMkdir | src/Directory.cpp:98-108 | a name just made by mkdir cannot be added again, but could be added before |
| Directory.ListNames | src/Directory.cpp:130-138 | lists every entry name exactly once and nothing else |
| Directory.FullPath | src/Directory.cpp:110-128 | `/` followed by the non-empty names from the root down, joined by `/`, without a trailing `/` |
| FileNode.Write | src/File.cpp:3-8 | the result keeps the old text only when appending, then holds the message and ends in a line break |
| FileNode.OverwriteForgets | src/File.cpp:5 | an overwrite does not depend on what the file held |
| FileNode.OverwriteThenAppend | src/File.cpp:3-8 | an overwrite then an append leave the two messages on their own lines |
| FileNode.WrittenIsFound | src/File.cpp:7 | a search for the message just written finds it |
| FileNode.AppendKeepsMatches | src/File.cpp:7 | appending keeps every match the file already had |
| Manager.Init | src/FileSystemManager.cpp:7 | the initial state is valid: an empty root that is also the current directory |
| Manager.Walk | src/FileSystemManager.cpp:242-257 | the walk down the names succeeds exactly when they lead to a directory, ending there; otherwise it fails with does-not-exist or not-a-directory |
| Manager.WalkMeetsFile | src/FileSystemManager.cpp:251-253 | the walk fails with the not-a-directory error exactly when some prefix of the names leads to a file |
| Manager.Ascend | src/FileSystemManager.cpp:236-239 | climbs one level per up and stops at the root: the result is a prefix of the start, shorter by the number of ups or empty once they run out |
| Manager.Base | src/FileSystemManager.cpp:232-240 | an absolute path starts at the root; any other starts at the directory reached by climbing one level per `..`, stopping at the root |
| Manager.Locate | src/FileSystemManager.cpp:227-260 | the empty path is invalid; otherwise resolution succeeds exactly when the start point followed by the split rest is a directory, and then ends exactly there; when the caller's error is not invalid-path, invalid-path is raised exactly when a leading part of the names leads to a file, and the caller's error exactly when the target is not a directory and no file is in the way |
| Manager.Navigate | src/FileSystemManager.cpp:227-260 | the empty path is invalid; otherwise navigation succeeds exactly when the start point followed by the split rest is a directory, and then ends exactly there; invalid-path is raised exactly when a leading part of the names leads to a file, does-not-exist exactly when the target is missing and no file is in the way |
| Manager.ResolveDestination | src/FileSystemManager.cpp:179-204 | the empty path is invalid; otherwise it succeeds exactly when the path names a directory, and reaches that directory; every failure is an invalid path |
| Manager.NavigateIsResolveDestination | src/FileSystemManager.cpp:179-204 | resolving a destination reaches the same directory as navigating, and fails exactly when navigating fails |
| Manager.Pwd | src/FileSystemManager.cpp:9-12 | the printed path is `/` and the current directory's names joined by `/`, and splitting it gives those names back |
| Manager.Cd | src/FileSystemManager.cpp:14-17 | succeeds exactly when the path names a directory, and then makes exactly that directory current and changes nothing else; invalid-path exactly when a file is in the way, does-not-exist exactly when the target is missing and no file is in the way |
| Manager.CdPwd | src/FileSystemManager.cpp:9-17 | changing to the printed working directory returns there from any directory |
| Manager.CdUp | src/FileSystemManager.cpp:236-239 | `cd ..` goes to the parent, and stays put at the root |
| Manager.ScanAbsolute | src/FileSystemManager.cpp:232-234 | the printed path of a directory scans as a root path whose rest splits back into its names |
| Manager.LocateAbsolute | src/FileSystemManager.cpp:227-260 | navigating the printed path of a directory reaches that directory from anywhere |
| Manager.ScanPlain | Utility/Utils.hpp:31-33 | a path that starts with neither `.` nor `/` is taken whole as the rest |
| Manager.InnerDotIsNotFolded | src/FileSystemManager.cpp:242-249 | `a/./b` and `a/../b` do not resolve: the inner step is looked up as a name |
| Manager.Ls | src/FileSystemManager.cpp:19-24 | with no path, the current directory's entry names; errors are those of navigation |
| Manager.LsIsCdThenLs | src/FileSystemManager.cpp:19-24 | listing a path succeeds exactly when changing to it does, and lists what would be listed from there |
| Manager.AtCwd | src/FileSystemManager.cpp:26-45 | replacing the current directory's entries keeps the state valid and the current directory in place, and changes nothing outside it |
| Manager.Mkdir | src/FileSystemManager.cpp:26-29 | the directory errors, in the current directory; on success only that entry is added and nothing outside the current directory changes |
| Manager.Rmdir | src/FileSystemManager.cpp:31-35 | without the flag only an empty directory goes; with it any directory; a missing name and a file fail |
| Manager.Rm | src/FileSystemManager.cpp:37-40 | removes exactly a file of the current directory; a missing name and a directory fail |
| Manager.Touch | src/FileSystemManager.cpp:42-45 | fails only on a directory; an existing file stays as it is; a new name gets an empty file |
| Manager.MkdirThenRmdir | src/FileSystemManager.cpp:26-35 | `rmdir` of a directory just made restores the state, with or without the recursive flag |
| Manager.TouchThenRm | src/FileSystemManager.cpp:37-45 | touching a new name succeeds, and removing it again restores the state |
| Manager.TouchExisting | src/FileSystemManager.cpp:42-45 | touching an existing file changes nothing |
| Manager.WriteToFile | src/FileSystemManager.cpp:47-61 | fails exactly on a directory; otherwise the entry becomes the file written by File::write over the old text, creating it empty first if missing, and nothing else changes |
| Manager.ReadFile | src/FileSystemManager.cpp:63-76 | a missing name and a directory each fail with their own error; otherwise the file's text |
| Manager.WriteThenRead | src/FileSystemManager.cpp:47-76 | reading after a write gives what File::write produced |
| Manager.WalkSource | src/FileSystemManager.cpp:153-166 | succeeds exactly when the names lead to an entry: a directory by its path, a file by its directory and name |
| Manager.WalkSourceMeetsFile | src/FileSystemManager.cpp:159-163 | the walk raises invalid-operation exactly when a name before the last one leads to a file |
| Manager.ResolveSource | src/FileSystemManager.cpp:136-177 | the resolved entry is the one the path names; it succeeds exactly when that entry exists and is a directory exactly when the recursive flag is set; a missing name with no file on the way is an invalid path; a file before the last name, or a file or directory against the flag, is an invalid operation |
| Manager.MeetsOnWayUp | src/FileSystemManager.cpp:215-219 | walking up from the destination meets the source exactly when the source is an ancestor of it or the destination itself |
| Manager.ValidateCopyOrMove | src/FileSystemManager.cpp:206-225 | passes exactly when the source is neither the root, nor the destination, nor above it, and its name is free in the destination |
| Manager.CopyTree | src/FileSystemManager.cpp:95-113 | the copy has the same names, structure and file texts as the original |
| Manager.FollowCwd | src/FileSystemManager.cpp:129-132 | a current directory inside a moved directory moves with it: the destination, the directory's name, then the same names below it; any other stays where it is |
| Manager.Cp | src/FileSystemManager.cpp:78-93 | keeps the current directory; the checks run in order: a source error is passed through, then a destination that does not resolve raises invalid path, then a directory source that fails validateCopyOrMove raises invalid operation |
| Manager.Mv | src/FileSystemManager.cpp:115-134 | the checks run in order: a source error is passed through, then a destination that does not resolve raises invalid path, then a directory source that fails validateCopyOrMove raises invalid operation |
| Manager.CpMvSucceed | src/FileSystemManager.cpp:78-134 | cp and mv succeed exactly when both paths resolve and a directory source passes validateCopyOrMove |
| Manager.CpEffect | src/FileSystemManager.cpp:78-93 | after cp the source's subtree also sits under its name in the destination, nothing outside that spot changes, and the state stays valid unless a file copy overwrote the current directory or an ancestor of it |
| Manager.MvEffect | src/FileSystemManager.cpp:115-134 | after mv the source's subtree sits under its name in the destination and is gone from where it was, and nothing away from those two spots changes; a directory move keeps the number of nodes and carries the current directory along, still naming the same directory |
| Manager.MoveFileFrame | src/FileSystemManager.cpp:120-125 | a file move changes nothing away from the file's old and new spots |
| Manager.MoveDirFrame | src/FileSystemManager.cpp:126-132 | a directory move changes nothing away from the directory's old and new spots |
| Manager.CopyFileFacts | src/FileSystemManager.cpp:83-88 | a file copy puts the file under its name in the destination, changes nothing else, and leaves a directory in place unless it was overwritten |
| Manager.CopyFileInPlace | src/FileSystemManager.cpp:83-88 | copying a file into its own directory changes nothing |
| Manager.CopyDirFacts | src/FileSystemManager.cpp:89-92 | a directory copy adds exactly the copied subtree under the destination and keeps every existing directory |
| Manager.MoveFileFacts | src/FileSystemManager.cpp:120-125 | a file move places the file in the destination and removes it from its directory |
| Manager.MoveFileInPlace | src/FileSystemManager.cpp:120-125 | moving a file into its own directory changes nothing |
| Manager.MoveFileBack | src/FileSystemManager.cpp:120-125 | moving a file back to where it came from restores the tree |
| Manager.MoveDirRelocates | src/FileSystemManager.cpp:126-132 | a directory move places the directory in the destination and removes it from its old spot |
| Manager.MoveDirCount | src/FileSystemManager.cpp:126-132 | a directory move keeps the number of nodes |
| Manager.MoveDirKeepsValid | src/FileSystemManager.cpp:126-132 | a directory move keeps the tree well formed, and a current directory inside the moved one, followed along, names the same directory as before |
| Manager.MoveDirBack | src/FileSystemManager.cpp:126-132 | moving the directory back passes the checks, restores the tree, and brings the current directory back |
| Search.Test | src/FileSystemManager.cpp:269-272 | true exactly for a file whose text contains the pattern |
| Search.GrepFlat | src/FileSystemManager.cpp:267-275 | the names of exactly the files directly in the directory whose text contains the pattern |
| Search.FlatHitsAreShallow | src/FileSystemManager.cpp:267-275 | a name is a flat hit exactly when it is a matching file one level down |
| Search.DfsGrep | src/FileSystemManager.cpp:285-312 | exactly the matching files anywhere below the directory, each as the path prefix followed by its names |
| Search.DfsEntry | src/FileSystemManager.cpp:289-309 | one entry of the walk: the entry itself if it is a matching file, else the matching files below it |
| Search.Grep | src/FileSystemManager.cpp:262-283 | navigation errors pass through; otherwise the hits, flat or recursive, or nothing when there are none |
| Search.RecursiveHits | src/FileSystemManager.cpp:285-312 | a recursive hit is the start directory's name followed by the path to a file below it whose text contains the pattern, and every such file is a hit |
| Search.FlatHits | src/FileSystemManager.cpp:267-275 | a flat hit is a single name of a matching file directly in the directory, and every such file is a hit |
| Search.NothingFound | src/FileSystemManager.cpp:281 | grep returns nothing exactly when no file below (recursive) or directly in (flat) the directory contains the pattern |
| Search.WrittenIsGrepped | src/FileSystemManager.cpp:47-61 | after writing a message to a file, a flat grep of the current directory for that message finds the file |
| Export.ToJson | src/FileSystemManager.cpp:320-337 | a file becomes its text; a directory becomes an object with exactly its entry names as keys, or null when it has no entries |
| Export.ExportThenRead | src/FileSystemManager.cpp:320-337 | reading the export back gives the exported tree |
| Export.ExportIsExported | src/FileSystemManager.cpp:320-337 | an export never holds an empty object |
| Export.ReadThenExport | src/FileSystemManager.cpp:320-337 | exporting what was read from such a value gives the value back |
| Export.ExportIsInjective | src/FileSystemManager.cpp:320-337 | different trees export to different values |
| Export.ConvertToJson | src/FileSystemManager.cpp:314-318 | navigation errors pass through, and the export succeeds whenever the path navigates; its result is an exported value, not a bare string, that reads back as the directory the path names |

## Left out

- The shell loop, the command parser and the printed messages
  (`Shell.cpp`, `CommandParser.cpp`) are not part of this model. Exceptions
  are modelled by their kind, not their message text.
- `std::unordered_map` iteration order. `ls` is modelled as a list holding
  every name once, in an unspecified order (`Directory.ListNames`). Grep
  hits are modelled as a set, because their order follows the map.
- Text rendering. Grep hits are lists of names, and the source joins them
  with `/`. The JSON export is a value, not its serialised text.
- Object identity: `shared_ptr`/`weak_ptr` links, parent links and `asNode`. Nodes are
  identified by path. `setParent` and the parent walk of `getFullPath` are
  modelled by the path itself.
- Search.Grep: requires a non-empty pattern, because the command parser
  never produces an empty word. An empty pattern is not modelled.
  `KMPSolver::solve` would then compare each text character with the
  string's terminating NUL, so it answers false for any text without a NUL
  character, even though the empty pattern occurs in every text.
- Kmp.Solve: requires a non-empty pattern, for the same reason. The empty
  pattern's false answer is not modelled.
- Text encoding. A `std::string` is modelled as one Dafny `char` per byte.
  File contents, names and patterns are sequences of those characters.
  `Directory.Size` of a file (`File::getSize`) is therefore its byte count.
  No UTF-8 decoding is modelled.
- Manager.Cp: after a file copy that overwrites the current directory or an
  ancestor of it, the source leaves the shell in a detached directory. The
  model returns that state. `Manager.CpEffect` says when it is still valid,
  but no further command is modelled from a detached state.
- Manager.Mv: the same holds for a file move.
- `File::getFullPath` is a placeholder that returns an empty string and is
  never used. `File::getSize` and `File::read` are covered by
  `Directory.Size` and `Manager.ReadFile`. `getName` is the map key.
- Integer widths. `size_t` counters and the `int` ups count are unbounded
  here. A tree large enough to overflow them cannot be built in memory.
