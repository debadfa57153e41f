/** Loading the tasks of one directory: one task per markdown file, one per
    task directory, most recently edited first. */
module TasksIo {
  import opened Wrappers
  import opened Text
  import opened Paths
  import opened FileSystem
  import opened MarkdownIo
  import opened TaskModel

  /** `file_path_to_task`: a file task named after the file without its
      ".md", backed by the file and stamped with the file's modification
      time. */
  function FilePathToTask(root: Node, filePath: Path): (t: Task)
    requires Exists(root, filePath)
    ensures !t.isDirectory && t.path == filePath
    ensures t.lastEdited == StatAt(root, filePath).value.mtime
    ensures EndsWith(FileName(filePath), MarkdownSuffix) ==> t.name + MarkdownSuffix == FileName(filePath)
    ensures !EndsWith(FileName(filePath), MarkdownSuffix) ==> t.name == FileName(filePath)
  {
    var name := RemoveSuffix(FileName(filePath), MarkdownSuffix);
    Task(name, filePath, Lookup(root, filePath).value.mtime, false)
  }

  /** `markdown_dir_to_task`: a directory task named after the directory,
      backed by its index file and stamped with the directory's own
      modification time (not the latest time found inside it). */
  function MarkdownDirToTask(root: Node, dirPath: Path): (t: Task)
    requires Exists(root, dirPath)
    ensures t.isDirectory && t.name == FileName(dirPath) && FileName(t.path) == IndexName
    ensures ChildrenDir(t) == Ok(dirPath)
    ensures t.lastEdited == StatAt(root, dirPath).value.mtime
  {
    Task(FileName(dirPath), dirPath + [IndexName], Lookup(root, dirPath).value.mtime, true)
  }

  /** The task built from the file of `name + ".md"` is called `name` again. */
  lemma FileTaskNameRoundTrip(root: Node, d: Path, name: string)
    requires Exists(root, d + [AddMarkdownExtension(name)])
    ensures FilePathToTask(root, d + [AddMarkdownExtension(name)]).name == name
  {
    var p := d + [AddMarkdownExtension(name)];
    assert FileName(p) == AddMarkdownExtension(name);
  }

  /** Appending ".md" to the name of a listed file task gives back its file,
      which is how the rename action addresses it. */
  lemma ListedFileTaskNameRoundTrip(root: Node, d: Path, p: Path)
    requires IsDirectory(root, d) && p in ListMarkdownFilesInDir(root, d)
    ensures d + [AddMarkdownExtension(FilePathToTask(root, p).name)] == p
  {
    MarkdownSuffixIff(FileName(p));
  }

  /** The tasks of a list are ordered most recently edited first. */
  predicate SortedByRecency(ts: seq<Task>)
  {
    forall i, j :: 0 <= i < j < |ts| ==> ts[i].lastEdited >= ts[j].lastEdited
  }

  /** The tasks of `ts` edited at time `k`, in their order in `ts`. */
  function EditedAt(ts: seq<Task>, k: int): seq<Task>
  {
    if ts == [] then []
    else (if ts[0].lastEdited == k then [ts[0]] else []) + EditedAt(ts[1..], k)
  }

  /** A task no older than every element of `ts` and than `t` is no older
      than any element of a permutation of `ts` plus `t`. */
  lemma HeadDominates(x: Task, rest: seq<Task>, ts: seq<Task>, t: Task)
    requires multiset(rest) == multiset(ts) + multiset{t}
    requires forall j :: 0 <= j < |ts| ==> x.lastEdited >= ts[j].lastEdited
    requires x.lastEdited >= t.lastEdited
    ensures forall m :: 0 <= m < |rest| ==> x.lastEdited >= rest[m].lastEdited
  {
    forall m | 0 <= m < |rest| ensures x.lastEdited >= rest[m].lastEdited {
      assert rest[m] in multiset(rest);
      if rest[m] != t {
        assert rest[m] in multiset(ts);
        assert rest[m] in ts;
      }
    }
  }

  lemma SortedTail(ts: seq<Task>)
    requires ts != [] && SortedByRecency(ts)
    ensures SortedByRecency(ts[1..])
  {
    assert forall i :: 0 <= i < |ts| - 1 ==> ts[1..][i] == ts[i + 1];
  }

  /** A task no older than every element of a list ordered by recency can
      be put in front of it. */
  lemma SortedCons(x: Task, ts: seq<Task>)
    requires SortedByRecency(ts)
    requires forall j :: 0 <= j < |ts| ==> x.lastEdited >= ts[j].lastEdited
    ensures SortedByRecency([x] + ts)
  {
    assert forall i :: 0 < i <= |ts| ==> ([x] + ts)[i] == ts[i - 1];
  }

  /** Puts `t` into a list ordered by recency, in front of every task edited
      no later than `t`. */
  function InsertByRecency(t: Task, ts: seq<Task>): (r: seq<Task>)
    requires SortedByRecency(ts)
    ensures SortedByRecency(r)
    ensures multiset(r) == multiset(ts) + multiset{t}
  {
    if ts == [] || t.lastEdited >= ts[0].lastEdited then
      SortedCons(t, ts);
      [t] + ts
    else
      SortedTail(ts);
      var rest := InsertByRecency(t, ts[1..]);
      HeadDominates(ts[0], rest, ts[1..], t);
      SortedCons(ts[0], rest);
      assert ts == [ts[0]] + ts[1..];
      [ts[0]] + rest
  }

  /** `order_tasks_by_last_edited`: `sorted(..., reverse=True)` on the
      timestamp, a stable sort, as an insertion sort. The result is a
      permutation of the input ordered most recent first. */
  function OrderTasksByLastEdited(tasks: seq<Task>): (r: seq<Task>)
    ensures SortedByRecency(r)
    ensures multiset(r) == multiset(tasks)
    ensures |r| == |tasks|
  {
    if tasks == [] then []
    else
      assert tasks == [tasks[0]] + tasks[1..];
      InsertByRecency(tasks[0], OrderTasksByLastEdited(tasks[1..]))
  }

  /** Inserting `t` puts it in front of the tasks with its own timestamp. */
  lemma {:induction false} InsertByRecencyStable(t: Task, ts: seq<Task>, k: int)
    requires SortedByRecency(ts)
    ensures EditedAt(InsertByRecency(t, ts), k) == (if t.lastEdited == k then [t] else []) + EditedAt(ts, k)
  {
    if ts == [] || t.lastEdited >= ts[0].lastEdited {
      EditedAtCons(t, ts, k);
    } else {
      SortedTail(ts);
      var rest := InsertByRecency(t, ts[1..]);
      assert InsertByRecency(t, ts) == [ts[0]] + rest;
      EditedAtCons(ts[0], rest, k);
      InsertByRecencyStable(t, ts[1..], k);
      EditedAtCons(ts[0], ts[1..], k);
      assert [ts[0]] + ts[1..] == ts;
    }
  }

  lemma EditedAtCons(x: Task, ts: seq<Task>, k: int)
    ensures EditedAt([x] + ts, k) == (if x.lastEdited == k then [x] else []) + EditedAt(ts, k)
  {
    assert ([x] + ts)[0] == x && ([x] + ts)[1..] == ts;
  }

  /** The sort is stable: tasks with equal timestamps keep their input
      order. */
  lemma {:induction false} OrderTasksByLastEditedStable(tasks: seq<Task>, k: int)
    ensures EditedAt(OrderTasksByLastEdited(tasks), k) == EditedAt(tasks, k)
  {
    if tasks != [] {
      OrderTasksByLastEditedStable(tasks[1..], k);
      InsertByRecencyStable(tasks[0], OrderTasksByLastEdited(tasks[1..]), k);
    }
  }

  /** One file task per listed markdown file, in listing order. */
  function FileTasks(root: Node, files: seq<Path>): (ts: seq<Task>)
    requires forall p :: p in files ==> Exists(root, p)
    ensures |ts| == |files|
    ensures forall i :: 0 <= i < |ts| ==> ts[i] == FilePathToTask(root, files[i])
  {
    seq(|files|, i requires 0 <= i < |files| => FilePathToTask(root, files[i]))
  }

  /** One directory task per listed task directory, in listing order. */
  function DirTasks(root: Node, dirs: seq<Path>): (ts: seq<Task>)
    requires forall p :: p in dirs ==> Exists(root, p)
    ensures |ts| == |dirs|
    ensures forall i :: 0 <= i < |ts| ==> ts[i] == MarkdownDirToTask(root, dirs[i])
  {
    seq(|dirs|, i requires 0 <= i < |dirs| => MarkdownDirToTask(root, dirs[i]))
  }

  /** `load_tasks_in_dir`: one task per listed markdown file and one per
      listed task directory, ordered most recently edited first. */
  function LoadTasksInDir(root: Node, d: Path): (r: seq<Task>)
    requires IsDirectory(root, d)
    ensures |r| == |ListMarkdownFilesInDir(root, d)| + |ListMarkdownDirsInDir(root, d)|
    ensures multiset(r) == multiset(FileTasks(root, ListMarkdownFilesInDir(root, d))) +
                           multiset(DirTasks(root, ListMarkdownDirsInDir(root, d)))
    ensures SortedByRecency(r)
  {
    var markdownFiles := ListMarkdownFilesInDir(root, d);
    var markdownDirs := ListMarkdownDirsInDir(root, d);
    OrderTasksByLastEdited(FileTasks(root, markdownFiles) + DirTasks(root, markdownDirs))
  }

  /** A task in the loaded list is built from one of the listed paths. */
  lemma LoadedTaskOrigin(root: Node, d: Path, t: Task)
    requires IsDirectory(root, d) && t in LoadTasksInDir(root, d)
    ensures (exists p :: p in ListMarkdownFilesInDir(root, d) && t == FilePathToTask(root, p)) ||
            (exists p :: p in ListMarkdownDirsInDir(root, d) && t == MarkdownDirToTask(root, p))
  {
    var files := ListMarkdownFilesInDir(root, d);
    var dirs := ListMarkdownDirsInDir(root, d);
    var fs := FileTasks(root, files);
    var ds := DirTasks(root, dirs);
    assert t in multiset(LoadTasksInDir(root, d));
    if t in fs {
      var i :| 0 <= i < |fs| && fs[i] == t;
      assert files[i] in files;
    } else {
      assert t in ds;
      var i :| 0 <= i < |ds| && ds[i] == t;
      assert dirs[i] in dirs;
    }
  }

  /** The task of a listed markdown file lives in `d` and is backed by
      that regular file. */
  lemma FileTaskFacts(root: Node, d: Path, p: Path)
    requires IsDirectory(root, d) && p in ListMarkdownFilesInDir(root, d)
    ensures var t := FilePathToTask(root, p);
            CurrentDir(t) == d && t.path != d + [IndexName] &&
            (WellFormed(root) ==> StatAt(root, t.path).Some? && StatAt(root, t.path).value.kind == RegularFile)
  {
    assert p == d + [FileName(p)];
    if WellFormed(root) {
      ListedFilesIff(root, d, p);
    }
  }

  /** The task of a listed task directory lives in `d` and is backed by the
      index file inside that directory. */
  lemma DirTaskFacts(root: Node, d: Path, p: Path)
    requires IsDirectory(root, d) && p in ListMarkdownDirsInDir(root, d)
    ensures var t := MarkdownDirToTask(root, p);
            CurrentDir(t) == d && t.path != d + [IndexName] &&
            (WellFormed(root) ==> Exists(root, t.path) && IsDirectory(root, p))
  {
    var t := MarkdownDirToTask(root, p);
    assert p == d + [FileName(p)];
    assert t.path == d + [FileName(p), IndexName];
    if WellFormed(root) {
      ListedDirsIff(root, d, p);
    }
  }

  /** A task whose note exists on disk: a file task's note is a regular
      file, and a directory task's children directory is a directory. */
  ghost predicate BackedTask(root: Node, t: Task)
  {
    Exists(root, t.path) &&
    (!t.isDirectory ==> StatAt(root, t.path).value.kind == RegularFile) &&
    (t.isDirectory ==> IsDirectory(root, ChildrenDir(t).value))
  }

  /** Facts about a task built from either listing. */
  lemma ListedTaskFacts(root: Node, d: Path, t: Task)
    requires IsDirectory(root, d)
    requires (exists p :: p in ListMarkdownFilesInDir(root, d) && t == FilePathToTask(root, p)) ||
             (exists p :: p in ListMarkdownDirsInDir(root, d) && t == MarkdownDirToTask(root, p))
    ensures CurrentDir(t) == d && t.path != d + [IndexName]
    ensures WellFormed(root) ==> BackedTask(root, t)
  {
    var files := ListMarkdownFilesInDir(root, d);
    var dirs := ListMarkdownDirsInDir(root, d);
    if exists p :: p in files && t == FilePathToTask(root, p) {
      var p :| p in files && t == FilePathToTask(root, p);
      FileTaskFacts(root, d, p);
    } else {
      var p :| p in dirs && t == MarkdownDirToTask(root, p);
      DirTaskFacts(root, d, p);
    }
  }

  /** Every loaded task is listed in `d` itself, and none is the index file
      of `d`. */
  lemma LoadedTasksBelongToDir(root: Node, d: Path)
    requires IsDirectory(root, d)
    ensures forall t :: t in LoadTasksInDir(root, d) ==> CurrentDir(t) == d
    ensures forall t :: t in LoadTasksInDir(root, d) ==> t.path != d + [IndexName]
  {
    forall t | t in LoadTasksInDir(root, d) ensures CurrentDir(t) == d && t.path != d + [IndexName] {
      LoadedTaskOrigin(root, d, t);
      ListedTaskFacts(root, d, t);
    }
  }

  /** On a well-formed tree every loaded task's note exists: a file task's
      note is a regular file, and a directory task's children directory
      exists, so its subtasks can be counted. */
  lemma LoadedTasksAreBacked(root: Node, d: Path)
    requires WellFormed(root) && IsDirectory(root, d)
    ensures forall t :: t in LoadTasksInDir(root, d) ==> BackedTask(root, t)
  {
    forall t | t in LoadTasksInDir(root, d) ensures BackedTask(root, t) {
      LoadedTaskOrigin(root, d, t);
      ListedTaskFacts(root, d, t);
    }
  }

  /** Creating a file changes no task built from a path that existed
      before. */
  lemma TasksUnchangedByNewFile(root: Node, d: Path, name: Name, now: int, ps: seq<Path>)
    requires IsDirectory(root, d) && Find(Children(root, d), name).None?
    requires forall p :: p in ps ==> Exists(root, p)
    ensures forall p :: p in ps ==> Exists(WithNewFile(root, d, name, now), p)
    ensures FileTasks(WithNewFile(root, d, name, now), ps) == FileTasks(root, ps)
    ensures DirTasks(WithNewFile(root, d, name, now), ps) == DirTasks(root, ps)
  {
    var updated := WithNewFile(root, d, name, now);
    LookupChild(root, d, name);
    StatAfterNewFile(root, d, name, now);
    forall p | p in ps
      ensures Exists(updated, p)
      ensures FilePathToTask(updated, p) == FilePathToTask(root, p)
      ensures MarkdownDirToTask(updated, p) == MarkdownDirToTask(root, p)
    {
      assert p != d + [name];
      assert StatAt(updated, p) == StatAt(root, p);
    }
  }

  /** Creating a file whose name passes the markdown test adds exactly one
      task, an empty note named after the file and stamped with the
      creation time; any other new entry leaves the loaded tasks as they
      were. */
  lemma LoadAfterNewFile(root: Node, d: Path, name: Name, now: int)
    requires IsDirectory(root, d) && Find(Children(root, d), name).None?
    ensures IsDirectory(WithNewFile(root, d, name, now), d)
    ensures multiset(LoadTasksInDir(WithNewFile(root, d, name, now), d)) ==
            multiset(LoadTasksInDir(root, d)) +
            if Suffix(name) == MarkdownSuffix && name != IndexName
            then multiset{Task(RemoveSuffix(name, MarkdownSuffix), d + [name], now, false)}
            else multiset{}
  {
    FileTasksAfterNewFile(root, d, name, now);
    DirTasksAfterNewFile(root, d, name, now);
  }

  /** The file tasks of `d` after creating a file: one more exactly when
      the new name passes the markdown test. */
  lemma FileTasksAfterNewFile(root: Node, d: Path, name: Name, now: int)
    requires IsDirectory(root, d) && Find(Children(root, d), name).None?
    ensures IsDirectory(WithNewFile(root, d, name, now), d)
    ensures var updated := WithNewFile(root, d, name, now);
            FileTasks(updated, ListMarkdownFilesInDir(updated, d)) ==
            FileTasks(root, ListMarkdownFilesInDir(root, d)) +
            if Suffix(name) == MarkdownSuffix && name != IndexName
            then [Task(RemoveSuffix(name, MarkdownSuffix), d + [name], now, false)]
            else []
  {
    var updated := WithNewFile(root, d, name, now);
    ListingsAfterNewFile(root, d, name, now);
    var files := ListMarkdownFilesInDir(root, d);
    TasksUnchangedByNewFile(root, d, name, now, files);
    if Suffix(name) == MarkdownSuffix && name != IndexName {
      NewFileTask(root, d, name, now);
      FileTasksAppend(updated, files, d + [name]);
    } else {
      assert files + [] == files;
    }
  }

  /** The directory tasks of `d` do not change when a file is created. */
  lemma DirTasksAfterNewFile(root: Node, d: Path, name: Name, now: int)
    requires IsDirectory(root, d) && Find(Children(root, d), name).None?
    ensures IsDirectory(WithNewFile(root, d, name, now), d)
    ensures var updated := WithNewFile(root, d, name, now);
            DirTasks(updated, ListMarkdownDirsInDir(updated, d)) == DirTasks(root, ListMarkdownDirsInDir(root, d))
  {
    ListingsAfterNewFile(root, d, name, now);
    TasksUnchangedByNewFile(root, d, name, now, ListMarkdownDirsInDir(root, d));
  }

  /** Listing one more file appends its task. */
  lemma FileTasksAppend(root: Node, files: seq<Path>, p: Path)
    requires forall q :: q in files + [p] ==> Exists(root, q)
    ensures FileTasks(root, files + [p]) == FileTasks(root, files) + [FilePathToTask(root, p)]
  {
    assert forall q :: q in files ==> q in files + [p];
    var lhs := FileTasks(root, files + [p]);
    var rhs := FileTasks(root, files) + [FilePathToTask(root, p)];
    assert |lhs| == |rhs|;
    forall i | 0 <= i < |lhs| ensures lhs[i] == rhs[i] {
      if i < |files| {
        assert (files + [p])[i] == files[i];
      } else {
        assert (files + [p])[i] == p;
      }
    }
  }

  /** The task of a freshly created file. */
  lemma NewFileTask(root: Node, d: Path, name: Name, now: int)
    requires IsDirectory(root, d) && Find(Children(root, d), name).None?
    ensures Exists(WithNewFile(root, d, name, now), d + [name])
    ensures FilePathToTask(WithNewFile(root, d, name, now), d + [name]) ==
            Task(RemoveSuffix(name, MarkdownSuffix), d + [name], now, false)
  {
    StatAfterNewFile(root, d, name, now);
    assert StatAt(WithNewFile(root, d, name, now), d + [name]) == Some(Stat(RegularFile, now, ""));
    assert FileName(d + [name]) == name;
  }

  /** The subtask count of a directory task is the number of tasks loaded
      from its children directory. */
  lemma NSubtasksCountsLoadedTasks(root: Node, t: Task)
    requires t.isDirectory && IsDirectory(root, ChildrenDir(t).value)
    ensures NSubtasks(root, t) == |LoadTasksInDir(root, ChildrenDir(t).value)|
  {
  }
}
