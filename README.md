# terdo task store, modelled in Dafny

terdo is a terminal to-do application that keeps its tasks as markdown
notes on disk. Its store has three parts:

- `terdo/utils/io.py` holds naming, listing and the two changes the store
  makes to the filesystem:
  - it lists the markdown task files of a directory, skipping the reserved
    `_index.md`;
  - it lists the task directories, meaning directories that hold an
    `_index.md`;
  - it appends the `.md` extension to a name;
  - it picks the first free `New markdown file <k>.md`;
  - it creates an empty task file, and it renames a task file.
- `terdo/utils/tasks_io.py` turns each listed file or directory into a
  `Task`. It orders the tasks most recently edited first, with a stable
  sort.
- `terdo/models/task.py` is the `Task` record, with the directories derived
  from its path and its subtask count.

The filesystem is a tree (`FileSystem.Node`). A directory is a sequence of
named entries in iteration order, and every node carries an integer
modification time. A path is the sequence of names from the root.

- The reading operations take the tree as a value.
- Creating and renaming a file are methods of `MarkdownIo` that take the
  mutable `FileSystem.Disk`. They replace its `root` and state the whole
  new tree.
- Each method that changes the disk is related to every path by a
  `StatAt` frame.
- `WellFormed` means no directory holds two entries with the same name.
  Every method preserves it.
- `pathlib`'s `suffix`, `str.removesuffix`, `str.rfind` and `str(int)` are
  modelled in `Paths` and `Text`. The model keeps the detail that a bare
  `.md` has no suffix.

Modules: `Wrappers` (Option / Result / Outcome), `Text`, `Paths`,
`FileSystem`, `MarkdownIo` (io.py), `TaskModel` (task.py) and `TasksIo`
(tasks_io.py).

## Model

| member | source | states |
|---|---|---|
| Paths.Suffix | terdo/utils/io.py:17 | `path.suffix`. A non-empty suffix is a dot followed by no further dot, shorter than the name, and ends the name. |
| Paths.MarkdownSuffixIff | terdo/utils/io.py:17 | A name has suffix `.md` exactly when it ends in `.md` and has more than three characters. |
| Paths.SuffixEdgeCases | terdo/utils/io.py:17 | `_index.md` passes the suffix test, so it must be excluded by name. A bare `.md` has no suffix. |
| Paths.FileName | terdo/utils/tasks_io.py:14 | `path.name` is the last name of the path: the parent followed by it is the path. The root's name is empty. |
| Paths.Parent | terdo/models/task.py:17 | `path.parent` is the path without its last name. The root is its own parent. |
| Text.RemoveSuffix | terdo/utils/tasks_io.py:14 | `removesuffix` drops one trailing occurrence of the suffix, or returns the text unchanged. |
| Text.NatToString | terdo/utils/io.py:45 | `str(n)` for a counter: a non-empty string of decimal digits, one digit exactly when `n < 10`, with no leading zero unless `n` is 0. |
| Text.NatToStringValue | terdo/utils/io.py:45 | Reading the digits of `str(n)` back as a decimal number gives `n`. |
| Text.NatToStringInjective | terdo/utils/io.py:45 | Distinct counters render as distinct decimal strings. |
| MarkdownIo.RootMarkdownDir | terdo/utils/io.py:4-8 | The root markdown directory is `markdown` directly under the working directory. |
| MarkdownIo.ContainsIndexMd | terdo/utils/io.py:23-24 | `dir_contains_index_md`: some entry, of any kind, is named `_index.md`, exactly when looking that name up among the entries finds one. |
| MarkdownIo.MarkdownFilesAmong | terdo/utils/io.py:14-18 | The file filter over the entries, in their order. It keeps at most one path per entry; `MarkdownFilesAmongMembers` states which. |
| MarkdownIo.MarkdownDirsAmong | terdo/utils/io.py:27-31 | The directory filter over the entries, in their order. It keeps at most one path per entry; `MarkdownDirsAmongMembers` states which. |
| MarkdownIo.MarkdownFilesAmongMembers | terdo/utils/io.py:14-18 | The file filter keeps exactly the entries that are regular files with suffix `.md` and are not `_index.md`, as children of `d`. |
| MarkdownIo.MarkdownDirsAmongMembers | terdo/utils/io.py:23-31 | The directory filter keeps exactly the entries that are directories holding an entry named `_index.md`, as children of `d`. |
| MarkdownIo.ListMarkdownFilesInDir | terdo/utils/io.py:11-19 | Lists at most one path per entry. Each listed path is a child of `d` that exists, has suffix `.md` and is not `_index.md`. |
| MarkdownIo.ListedFilesIff | terdo/utils/io.py:11-19 | On a well-formed tree, a path is listed exactly when it is a regular file directly in `d`, has suffix `.md` and is not `_index.md`. |
| MarkdownIo.FileListingPreservesOrder | terdo/utils/io.py:13-18 | The file listing keeps iteration order: listing concatenated entries concatenates their listings. |
| MarkdownIo.ListMarkdownDirsInDir | terdo/utils/io.py:22-32 | Lists at most one path per entry. Each listed path is an existing child of `d`. |
| MarkdownIo.ListedDirsIff | terdo/utils/io.py:22-32 | On a well-formed tree, a path is listed exactly when it is a directory directly in `d` that holds an entry named `_index.md`, of any kind. |
| MarkdownIo.DirListingPreservesOrder | terdo/utils/io.py:26-31 | The directory listing keeps iteration order in the same way. |
| MarkdownIo.ListingsDisjoint | terdo/utils/io.py:11-32 | No path is in both listings. |
| MarkdownIo.ListingsBound | terdo/utils/io.py:11-32 | The two listings together have no more paths than the directory has entries. |
| MarkdownIo.AddMarkdownExtension | terdo/utils/io.py:35-37 | The result is the name followed by `.md`, three characters longer. `removesuffix(".md")` gives the name back. It has suffix `.md` exactly when the name is non-empty. |
| MarkdownIo.AddMarkdownExtensionExample | tests/test_io.py:4-10 | `"Test file name"` becomes `"Test file name.md"`. |
| MarkdownIo.GenerateCandidateName | terdo/utils/io.py:43-45 | A candidate is the default name, a space, then decimal digits only. |
| MarkdownIo.CandidateFileName | terdo/utils/io.py:53-60 | The candidate file name for counter `k` ends in `.md`, and `removesuffix(".md")` gives back the default name, a space and `str(k)`. |
| MarkdownIo.CandidateFileNameExample | terdo/utils/io.py:47-55 | The first candidate is `New markdown file 0.md`. |
| MarkdownIo.CandidateFileNameInjective | terdo/utils/io.py:43-60 | Distinct counters give distinct candidate file names. |
| MarkdownIo.CandidateIsMarkdownName | terdo/utils/io.py:43-60 | Every candidate has suffix `.md`, is not `_index.md`, and is a plain name with no `/`. |
| MarkdownIo.CandidatesTakenBound | terdo/utils/io.py:56-60 | If the first `c` candidates are all taken, there are at least `c` listed names. |
| MarkdownIo.TakenStep | terdo/utils/io.py:56-60 | One more taken candidate extends the taken prefix without outgrowing the list of names. |
| MarkdownIo.MarkdownFileNames | terdo/utils/io.py:48-50 | There is one name per listed markdown file. The name completes its listed path under `d`. |
| MarkdownIo.GetDefaultNewFileName | terdo/utils/io.py:40-62 | Returns `New markdown file k.md`, which is not a listed markdown file name. Every candidate below `k` is taken, so `k` is the smallest free counter. `k` is at most the number of listed files, which bounds the loop. |
| MarkdownIo.FileEntryIsListed | terdo/utils/io.py:48-50 | The name of every markdown file entry of `d` is among the names the allocator avoids. |
| MarkdownIo.DefaultNameShadowedOnlyByDirectory | terdo/utils/io.py:40-62 | An entry of `d` named like a free candidate can only be a directory. |
| MarkdownIo.CreateNewMarkdownFile | terdo/utils/io.py:65-69 | Fails with FileNotFound when `d` is not a directory, and with FileExists when `d / name` is taken, leaving the tree unchanged. Otherwise it returns `d / name`. Exactly that path becomes an empty regular file stamped `now`, and every other path is unchanged, `d`'s own modification time included (see Left out). |
| MarkdownIo.ListingsAfterNewFile | terdo/utils/io.py:65-69 | Creating a file adds it to the file listing when its name passes the markdown test, at the end of the model's iteration order. The directory listing stays as it was. |
| MarkdownIo.RenameMarkdownFile | terdo/utils/io.py:72-76 | Fails with FileNotFound when `d / a.md` is missing. Renaming a name to itself changes nothing. Fails with FileExists, leaving the tree unchanged, when `d / b.md` is already taken. Otherwise the subtree at `d / a.md` moves to `d / b.md`, nothing remains at `d / a.md`, and every other path is unchanged, `d`'s own modification time included (see Left out). |
| FileSystem.WithNewFile | terdo/utils/io.py:68 | The tree after `touch` of a free name: `d` is still a directory, and its entries are the old ones followed by an empty file of that name stamped `now`. |
| FileSystem.WithRenamed | terdo/utils/io.py:76 | The tree after `rename` within `d`: `d` is still a directory, and the renamed entry keeps its node and position and takes the new name. |
| FileSystem.StatAfterNewFile | terdo/utils/io.py:68 | After `touch`, exactly the new path is an empty regular file stamped `now`. Every other path reports what it did before, `d` included (see Left out). |
| FileSystem.StatAfterRename | terdo/utils/io.py:76 | After `rename`, the old path and everything under it are gone. The new path reports what the old one did, and all other paths are unchanged, `d` included (see Left out). |
| FileSystem.WellFormedAfterNewFile | terdo/utils/io.py:68 | Creating a file keeps entry names distinct in every directory. |
| FileSystem.WellFormedAfterRename | terdo/utils/io.py:76 | Renaming onto a free name keeps entry names distinct in every directory. |
| TaskModel.ChildrenDir | terdo/models/task.py:14-21 | Defined exactly for directory tasks, where it is the directory holding the task's path. A file task gets the NotADirectory error. |
| TaskModel.CurrentDir | terdo/models/task.py:23-28 | For a directory task, the parent of its children directory. For a file task, the directory holding its file. |
| TaskModel.ParentDir | terdo/models/task.py:30-35 | Always the parent of `CurrentDir`, for both kinds. |
| TaskModel.NSubtasks | terdo/models/task.py:37-46 | 0 for a file task. For a directory task, at most the number of entries of its children directory. |
| TasksIo.NSubtasksCountsLoadedTasks | terdo/models/task.py:37-46 | A directory task's subtask count equals the number of tasks loaded from its children directory. |
| TasksIo.FilePathToTask | terdo/utils/tasks_io.py:11-18 | Builds a file task backed by the path and stamped with its mtime. Its name plus `.md` is the file name when that ends in `.md`; otherwise it is the file name itself. |
| TasksIo.FileTaskNameRoundTrip | terdo/utils/tasks_io.py:11-18 | The task of the file `name + ".md"` is called `name`. |
| TasksIo.ListedFileTaskNameRoundTrip | terdo/utils/tasks_io.py:11-18 | Appending `.md` to a listed file task's name gives back its file. |
| TasksIo.MarkdownDirToTask | terdo/utils/tasks_io.py:21-28 | Builds a directory task named after the directory, backed by `dir/_index.md`, and stamped with the directory's own mtime. Its children directory is the directory. |
| TasksIo.InsertByRecency | terdo/utils/tasks_io.py:31-33 | Inserting into a recency-ordered list keeps it ordered and adds exactly the one task. |
| TasksIo.OrderTasksByLastEdited | terdo/utils/tasks_io.py:31-33 | The result is a permutation of the input, ordered most recently edited first. |
| TasksIo.InsertByRecencyStable | terdo/utils/tasks_io.py:33 | The inserted task goes in front of the tasks that share its timestamp. |
| TasksIo.OrderTasksByLastEditedStable | terdo/utils/tasks_io.py:33 | The sort is stable: for every timestamp, the tasks carrying it keep their input order. |
| TasksIo.FileTasks | terdo/utils/tasks_io.py:41 | One task per listed markdown file, in listing order, each built by `file_path_to_task`. |
| TasksIo.DirTasks | terdo/utils/tasks_io.py:41-43 | One task per listed task directory, in listing order, each built by `markdown_dir_to_task`. |
| TasksIo.LoadTasksInDir | terdo/utils/tasks_io.py:36-44 | One task per listed markdown file plus one per listed task directory, as a multiset, ordered most recent first. |
| TasksIo.LoadedTaskOrigin | terdo/utils/tasks_io.py:36-44 | Every loaded task is built from a listed markdown file or from a listed task directory. |
| TasksIo.LoadedTasksBelongToDir | terdo/utils/tasks_io.py:36-44 | Every loaded task's `current_dir` is `d`, and none is backed by `d/_index.md`. |
| TasksIo.LoadedTasksAreBacked | terdo/utils/tasks_io.py:36-44 | On a well-formed tree every loaded task's path exists. A file task's path is a regular file. A directory task's children directory is a directory, so `n_subtasks` can be counted. |
| TasksIo.LoadAfterNewFile | terdo/utils/tasks_io.py:36-44 | Creating a file with a markdown name adds exactly one task: the empty note named after the file, stamped `now`. Any other new file leaves the loaded tasks unchanged. |

## Left out

- The terminal user interface is not part of this model: widgets, key bindings, dialogs and the search filter. So is the application wiring in `main.py`, whose older task loader is superseded by `load_tasks_in_dir`.
- `iterdir`, `stat`, `touch`, `rename` and `Path.cwd()` are modelled as operations on the tree value. The working directory is a parameter of `RootMarkdownDir`, and the creation time is a parameter `now` of `CreateNewMarkdownFile`.
- The default `dir` argument of `rename_markdown_file` is not modelled. The model passes the directory explicitly. The user interface calls it without a directory, so it always acts on the root markdown directory. For a task listed in a subdirectory, or a directory task, it meets the FileNotFound branch, unless the root markdown directory happens to hold a file `<name>.md`: that unrelated file is then renamed instead.
- Symbolic links, permissions and concurrent changes to the disk are not modelled. Neither are float modification times, `datetime` or Pydantic validation: times are integers, and `Task` is a plain datatype.
- MarkdownIo.ListMarkdownFilesInDir: requires `d` to be an existing directory. `iterdir` raises otherwise and no caller catches it, so the error path is not modelled.
- MarkdownIo.ListMarkdownDirsInDir: requires `d` to be an existing directory, for the same reason.
- TaskModel.NSubtasks: requires a directory task's children directory to exist. The listings raise otherwise.
- MarkdownIo.CreateNewMarkdownFile: requires a plain name, so that `d / name` is a single entry of `d`. It excludes names containing `/`. It also excludes `""`, `"."` and `".."`: `d / ""` and `d / "."` are `d` itself and `d / ".."` is its parent, so on an existing `d` the source's `touch(exist_ok=False)` raises FileExistsError for them. The model does not cover them. Both the missing directory and a parent path that is a file are reported as FileNotFound.
- MarkdownIo.RenameMarkdownFile: when the destination exists, returns FileExists and leaves the tree unchanged. It does not model the operating system's behaviour, such as POSIX `rename` silently replacing a file. Names containing `/` are excluded.
- MarkdownIo.ListingsAfterNewFile: the new file is placed last in the directory's iteration order. That position is the model's choice (`FileSystem.WithNewFile`); after `touch` the real position in `iterdir` order is up to the filesystem. `TasksIo.LoadAfterNewFile` states the order-free consequence, as a multiset.
- FileSystem.WithNewFile: appends the new entry, for the same reason.
- MarkdownIo.RenameMarkdownFile: the renamed entry keeps its position in the directory's iteration order. The real order after a rename is up to the filesystem.
- MarkdownIo.CreateNewMarkdownFile, MarkdownIo.RenameMarkdownFile, FileSystem.StatAfterNewFile, FileSystem.StatAfterRename: the modification time of `d` itself stays as it was, where `touch` and `rename` update it. `markdown_dir_to_task` reads that time, so in the real program the task of `d` moves up in its parent's listing; the model does not capture that.
- Moving tasks between directories, promoting a file task to a directory, deleting tasks, and recursive recency of a directory's contents are not part of the source's store and are not modelled.
- MarkdownIo.GetDefaultNewFileName: the name it returns avoids only markdown files. A directory with the same name still occupies that path, so a following create fails with FileExists (see `DefaultNameShadowedOnlyByDirectory`).
