/** The task record the store hands to the user interface, with the
    directories derived from where its note lives. */
module TaskModel {
  import opened Wrappers
  import opened Paths
  import opened FileSystem
  import opened MarkdownIo

  /** A task as loaded from disk: its display name, the markdown file that
      holds its note (`<dir>/<name>.md` for a file task,
      `<dir>/<name>/_index.md` for a directory task), the modification time
      as a timestamp, and its kind. */
  datatype Task = Task(name: string, path: Path, lastEdited: int, isDirectory: bool)

  /** The `ValueError` raised when a file task is asked for its children. */
  datatype TaskError = NotADirectory

  /** `children_dir`: the directory holding a directory task's index file
      and its subtasks; a file task has none. */
  function ChildrenDir(t: Task): (r: Result<Path, TaskError>)
    ensures r.Ok? <==> t.isDirectory
    ensures r.Err? ==> r.error == NotADirectory
    ensures r.Ok? && t.path != [] ==> t.path == r.value + [FileName(t.path)]
  {
    if t.isDirectory then Ok(Parent(t.path)) else Err(NotADirectory)
  }

  /** `current_dir`: the directory the task is listed in. For a directory
      task that is the parent of its children directory; for a file task,
      the directory holding its file. */
  function CurrentDir(t: Task): (r: Path)
    ensures t.isDirectory ==> r == Parent(ChildrenDir(t).value)
    ensures !t.isDirectory && t.path != [] ==> t.path == r + [FileName(t.path)]
  {
    if t.isDirectory then Parent(Parent(t.path)) else Parent(t.path)
  }

  /** `parent_dir`: one level above the directory the task is listed in,
      whatever the task's kind. */
  function ParentDir(t: Task): (r: Path)
    ensures r == Parent(CurrentDir(t))
  {
    if t.isDirectory then Parent(Parent(Parent(t.path))) else Parent(Parent(t.path))
  }

  /** `n_subtasks`: none for a file task; for a directory task, the number of
      markdown files and task directories in its children directory, which
      is at most the number of entries there. */
  function NSubtasks(root: Node, t: Task): (r: nat)
    requires t.isDirectory ==> IsDirectory(root, ChildrenDir(t).value)
    ensures !t.isDirectory ==> r == 0
    ensures t.isDirectory ==> r <= |Children(root, ChildrenDir(t).value)|
  {
    if t.isDirectory then
      var childrenDir := ChildrenDir(t).value;
      ListingsBound(childrenDir, Children(root, childrenDir));
      |ListMarkdownFilesInDir(root, childrenDir) + ListMarkdownDirsInDir(root, childrenDir)|
    else 0
  }
}
