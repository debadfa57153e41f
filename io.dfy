/** Naming, listing and default-name allocation for markdown tasks, and the
    two filesystem changes the store makes: creating an empty task file and
    renaming one. */
module MarkdownIo {
  import opened Wrappers
  import opened Text
  import opened Paths
  import opened FileSystem

  /** The errors the filesystem raises at the operations modelled here. */
  datatype IoError =
    | FileNotFound   // the directory or the file to rename is missing
    | FileExists     // the path to create or rename onto is taken

  const MarkdownDirName: Name := "markdown"

  const DefaultName: string := "New markdown file"

  /** The root markdown directory: `markdown` under the working directory. */
  function RootMarkdownDir(cwd: Path): (r: Path)
    ensures Parent(r) == cwd && FileName(r) == MarkdownDirName
  {
    cwd + [MarkdownDirName]
  }

  /** A name that `dir / name` treats as one entry of `dir`. */
  predicate IsPlainName(name: Name)
  {
    name != "" && name != "." && name != ".." && '/' !in name
  }

  /** The test applied to each entry when listing markdown files: a regular
      file with the ".md" suffix that is not the reserved index file. */
  predicate IsMarkdownFileEntry(e: Entry)
  {
    e.node.File? && Suffix(e.name) == MarkdownSuffix && e.name != IndexName
  }

  /** `dir_contains_index_md`: some entry, of any kind, is named "_index.md". */
  predicate ContainsIndexMd(es: seq<Entry>)
    ensures ContainsIndexMd(es) <==> Find(es, IndexName).Some?
  {
    exists k :: 0 <= k < |es| && es[k].name == IndexName
  }

  /** The test applied to each entry when listing task directories. */
  predicate IsMarkdownDirEntry(e: Entry)
  {
    e.node.Dir? && ContainsIndexMd(e.node.entries)
  }

  /** The paths under `d` of the entries that pass the file test, in order. */
  function MarkdownFilesAmong(d: Path, es: seq<Entry>): (r: seq<Path>)
    ensures |r| <= |es|
  {
    if es == [] then []
    else (if IsMarkdownFileEntry(es[0]) then [d + [es[0].name]] else []) + MarkdownFilesAmong(d, es[1..])
  }

  /** The paths under `d` of the entries that pass the directory test, in
      order. */
  function MarkdownDirsAmong(d: Path, es: seq<Entry>): (r: seq<Path>)
    ensures |r| <= |es|
  {
    if es == [] then []
    else (if IsMarkdownDirEntry(es[0]) then [d + [es[0].name]] else []) + MarkdownDirsAmong(d, es[1..])
  }

  /** The file filter keeps exactly the entries that pass its test. */
  lemma {:induction false} MarkdownFilesAmongMembers(d: Path, es: seq<Entry>)
    ensures forall p :: p in MarkdownFilesAmong(d, es) <==>
                        exists k :: 0 <= k < |es| && IsMarkdownFileEntry(es[k]) && p == d + [es[k].name]
  {
    if es != [] {
      MarkdownFilesAmongMembers(d, es[1..]);
      assert forall k :: 1 <= k < |es| ==> es[k] == es[1..][k - 1];
    }
  }

  /** The directory filter keeps exactly the entries that pass its test. */
  lemma {:induction false} MarkdownDirsAmongMembers(d: Path, es: seq<Entry>)
    ensures forall p :: p in MarkdownDirsAmong(d, es) <==>
                        exists k :: 0 <= k < |es| && IsMarkdownDirEntry(es[k]) && p == d + [es[k].name]
  {
    if es != [] {
      MarkdownDirsAmongMembers(d, es[1..]);
      assert forall k :: 1 <= k < |es| ==> es[k] == es[1..][k - 1];
    }
  }

  /** `list_markdown_files_in_dir`: the paths of the markdown files directly
      in `d`, in iteration order. */
  function ListMarkdownFilesInDir(root: Node, d: Path): (r: seq<Path>)
    requires IsDirectory(root, d)
    ensures |r| <= |Children(root, d)|
    ensures forall p :: p in r ==> p == d + [FileName(p)] && Exists(root, p)
    ensures forall p :: p in r ==> Suffix(FileName(p)) == MarkdownSuffix && FileName(p) != IndexName
  {
    ListedPathsExist(root, d);
    MarkdownFilesAmongMembers(d, Children(root, d));
    MarkdownFilesAmong(d, Children(root, d))
  }

  /** `list_markdown_dirs_in_dir`: the paths of the directories directly in
      `d` that hold an index file, in iteration order. */
  function ListMarkdownDirsInDir(root: Node, d: Path): (r: seq<Path>)
    requires IsDirectory(root, d)
    ensures |r| <= |Children(root, d)|
    ensures forall p :: p in r ==> p == d + [FileName(p)] && Exists(root, p)
  {
    ListedPathsExist(root, d);
    MarkdownDirsAmongMembers(d, Children(root, d));
    MarkdownDirsAmong(d, Children(root, d))
  }

  /** Every entry of a directory can be reached by its name. */
  lemma ListedPathsExist(root: Node, d: Path)
    requires IsDirectory(root, d)
    ensures forall k :: 0 <= k < |Children(root, d)| ==> Exists(root, d + [Children(root, d)[k].name])
  {
    var es := Children(root, d);
    forall k | 0 <= k < |es| ensures Exists(root, d + [es[k].name]) {
      LookupChild(root, d, es[k].name);
    }
  }

  /** A regular file directly at `p` that the markdown listing accepts. */
  predicate IsMarkdownFileAt(root: Node, p: Path)
  {
    StatAt(root, p).Some? && StatAt(root, p).value.kind == RegularFile &&
    Suffix(FileName(p)) == MarkdownSuffix && FileName(p) != IndexName
  }

  /** A directory at `p` that holds an entry named "_index.md". */
  predicate IsMarkdownDirAt(root: Node, p: Path)
  {
    IsDirectory(root, p) && Exists(root, p + [IndexName])
  }

  /** On a well-formed tree the file listing holds exactly the markdown files
      directly in `d`. */
  lemma ListedFilesIff(root: Node, d: Path, p: Path)
    requires WellFormed(root) && IsDirectory(root, d)
    ensures p in ListMarkdownFilesInDir(root, d) <==> p != [] && Parent(p) == d && IsMarkdownFileAt(root, p)
  {
    var es := Children(root, d);
    WellFormedLookup(root, d);
    MarkdownFilesAmongMembers(d, es);
    if p != [] && Parent(p) == d {
      var x := FileName(p);
      assert p == d + [x];
      LookupChild(root, d, x);
      var f := Find(es, x);
      if f.Some? {
        FindUnique(es, f.value);
        assert IsMarkdownFileAt(root, p) <==> IsMarkdownFileEntry(es[f.value]);
        if p in ListMarkdownFilesInDir(root, d) {
          var k :| 0 <= k < |es| && IsMarkdownFileEntry(es[k]) && p == d + [es[k].name];
          assert es[k].name == x;
          FindUnique(es, k);
        }
      }
    }
  }

  /** On a well-formed tree the directory listing holds exactly the
      directories directly in `d` that contain "_index.md". */
  lemma ListedDirsIff(root: Node, d: Path, p: Path)
    requires WellFormed(root) && IsDirectory(root, d)
    ensures p in ListMarkdownDirsInDir(root, d) <==> p != [] && Parent(p) == d && IsMarkdownDirAt(root, p)
  {
    var es := Children(root, d);
    WellFormedLookup(root, d);
    MarkdownDirsAmongMembers(d, es);
    if p != [] && Parent(p) == d {
      var x := FileName(p);
      assert p == d + [x];
      LookupChild(root, d, x);
      var f := Find(es, x);
      if f.Some? {
        var k := f.value;
        FindUnique(es, k);
        if es[k].node.Dir? {
          LookupChild(root, p, IndexName);
          var g := Find(es[k].node.entries, IndexName);
          assert Exists(root, p + [IndexName]) <==> g.Some?;
          assert ContainsIndexMd(es[k].node.entries) <==> g.Some?;
        }
        if p in ListMarkdownDirsInDir(root, d) {
          var k' :| 0 <= k' < |es| && IsMarkdownDirEntry(es[k']) && p == d + [es[k'].name];
          assert es[k'].name == x;
          FindUnique(es, k');
        }
      }
    }
  }

  /** No path is listed both as a markdown file and as a task directory. */
  lemma ListingsDisjoint(root: Node, d: Path, p: Path)
    requires WellFormed(root) && IsDirectory(root, d)
    ensures !(p in ListMarkdownFilesInDir(root, d) && p in ListMarkdownDirsInDir(root, d))
  {
    ListedFilesIff(root, d, p);
    ListedDirsIff(root, d, p);
  }

  /** Each entry is listed at most once over the two listings together. */
  lemma {:induction false} ListingsBound(d: Path, es: seq<Entry>)
    ensures |MarkdownFilesAmong(d, es)| + |MarkdownDirsAmong(d, es)| <= |es|
  {
    if es != [] {
      ListingsBound(d, es[1..]);
    }
  }

  /** The file listing keeps the iteration order: listing a concatenation of
      entries is concatenating their listings. */
  lemma {:induction false} FileListingPreservesOrder(d: Path, a: seq<Entry>, b: seq<Entry>)
    ensures MarkdownFilesAmong(d, a + b) == MarkdownFilesAmong(d, a) + MarkdownFilesAmong(d, b)
  {
    if a == [] {
      assert a + b == b;
    } else {
      var x := a[0];
      assert a + b == [x] + (a[1..] + b) && a == [x] + a[1..];
      FileListingPreservesOrder(d, a[1..], b);
      FilesAmongCons(d, x, a[1..] + b);
      FilesAmongCons(d, x, a[1..]);
      var head := if IsMarkdownFileEntry(x) then [d + [x.name]] else [];
      var fa, fb := MarkdownFilesAmong(d, a[1..]), MarkdownFilesAmong(d, b);
      assert head + (fa + fb) == (head + fa) + fb;
    }
  }

  lemma FilesAmongCons(d: Path, x: Entry, rest: seq<Entry>)
    ensures MarkdownFilesAmong(d, [x] + rest) ==
            (if IsMarkdownFileEntry(x) then [d + [x.name]] else []) + MarkdownFilesAmong(d, rest)
  {
    assert ([x] + rest)[0] == x && ([x] + rest)[1..] == rest;
  }

  /** The directory listing keeps the iteration order in the same way. */
  lemma {:induction false} DirListingPreservesOrder(d: Path, a: seq<Entry>, b: seq<Entry>)
    ensures MarkdownDirsAmong(d, a + b) == MarkdownDirsAmong(d, a) + MarkdownDirsAmong(d, b)
  {
    if a == [] {
      assert a + b == b;
    } else {
      var x := a[0];
      assert a + b == [x] + (a[1..] + b) && a == [x] + a[1..];
      DirListingPreservesOrder(d, a[1..], b);
      DirsAmongCons(d, x, a[1..] + b);
      DirsAmongCons(d, x, a[1..]);
      var head := if IsMarkdownDirEntry(x) then [d + [x.name]] else [];
      var fa, fb := MarkdownDirsAmong(d, a[1..]), MarkdownDirsAmong(d, b);
      assert head + (fa + fb) == (head + fa) + fb;
    }
  }

  lemma DirsAmongCons(d: Path, x: Entry, rest: seq<Entry>)
    ensures MarkdownDirsAmong(d, [x] + rest) ==
            (if IsMarkdownDirEntry(x) then [d + [x.name]] else []) + MarkdownDirsAmong(d, rest)
  {
    assert ([x] + rest)[0] == x && ([x] + rest)[1..] == rest;
  }

  /** `add_markdown_extension`: the name with ".md" appended, which
      `removesuffix(".md")` takes off again. The result has the markdown
      suffix unless the name was empty. */
  function AddMarkdownExtension(fileName: string): (r: string)
    ensures EndsWith(r, MarkdownSuffix) && |r| == |fileName| + |MarkdownSuffix|
    ensures RemoveSuffix(r, MarkdownSuffix) == fileName
    ensures Suffix(r) == MarkdownSuffix <==> fileName != ""
  {
    var markdownExtension := "md";
    var r := fileName + "." + markdownExtension;
    assert r == fileName + MarkdownSuffix;
    RemoveAppendedSuffix(fileName, MarkdownSuffix);
    MarkdownSuffixIff(r);
    r
  }

  /** The behaviour the unit test checks. */
  lemma AddMarkdownExtensionExample()
    ensures AddMarkdownExtension("Test file name") == "Test file name.md"
  {
  }

  /** `generate_candidate_name`: the default name, a space and the counter in
      decimal. */
  function GenerateCandidateName(defaultName: string, counter: nat): (r: string)
    ensures |r| > |defaultName| + 1 && r[..|defaultName| + 1] == defaultName + " "
    ensures forall i :: |defaultName| + 1 <= i < |r| ==> IsDigit(r[i])
  {
    var r := defaultName + " " + NatToString(counter);
    assert r[..|defaultName| + 1] == defaultName + " ";
    r
  }

  /** The file name the allocator tries for counter `k`. */
  function CandidateFileName(k: nat): (r: Name)
    ensures EndsWith(r, MarkdownSuffix)
    ensures RemoveSuffix(r, MarkdownSuffix) == DefaultName + " " + NatToString(k)
  {
    AddMarkdownExtension(GenerateCandidateName(DefaultName, k))
  }

  lemma CandidateFileNameExample()
    ensures CandidateFileName(0) == "New markdown file 0.md"
  {
  }

  /** Distinct counters give distinct candidates. */
  lemma {:induction false} CandidateFileNameInjective(j: nat, k: nat)
    requires CandidateFileName(j) == CandidateFileName(k)
    ensures j == k
  {
    var pre := DefaultName + " ";
    var cj, ck := GenerateCandidateName(DefaultName, j), GenerateCandidateName(DefaultName, k);
    assert cj == RemoveSuffix(CandidateFileName(j), MarkdownSuffix) == ck;
    assert cj == pre + NatToString(j) && ck == pre + NatToString(k);
    assert NatToString(j) == cj[|pre|..] == NatToString(k);
    NatToStringInjective(j, k);
  }

  /** Every candidate is a name the markdown file listing accepts. */
  lemma CandidateIsMarkdownName(k: nat)
    ensures Suffix(CandidateFileName(k)) == MarkdownSuffix
    ensures CandidateFileName(k) != IndexName
    ensures IsPlainName(CandidateFileName(k))
  {
    var c := CandidateFileName(k);
    assert c[0] == 'N';
    assert c[0] != IndexName[0];
    assert forall i :: 0 <= i < |c| ==> c[i] != '/' by {
      var g := GenerateCandidateName(DefaultName, k);
      assert c == g + MarkdownSuffix;
      forall i | 0 <= i < |c| ensures c[i] != '/' {
        if i < |DefaultName| + 1 {
          assert c[i] == (DefaultName + " ")[i];
        } else if i < |g| {
          assert IsDigit(g[i]);
        }
      }
    }
  }

  /** An injective function maps `c` arguments to `c` values. */
  lemma {:induction false} ImageSize<T>(f: nat -> T, c: nat)
    requires forall i: nat, j: nat :: i < c && j < c && f(i) == f(j) ==> i == j
    ensures |set j: nat | j < c :: f(j)| == c
  {
    if c > 0 {
      var before := set j: nat | j < c - 1 :: f(j);
      var all := set j: nat | j < c :: f(j);
      ImageSize(f, c - 1);
      assert all == before + {f(c - 1)};
      assert f(c - 1) !in before;
    }
  }

  lemma {:induction false} SubsetSize<T>(a: set<T>, b: set<T>)
    requires a <= b
    ensures |a| <= |b|
    decreases |a|
  {
    if a != {} {
      var x :| x in a;
      SubsetSize(a - {x}, b - {x});
    }
  }

  lemma {:induction false} SeqSetSize<T>(s: seq<T>)
    ensures |set x | x in s| <= |s|
  {
    if s != [] {
      SeqSetSize(s[1..]);
      assert (set x | x in s) == (set x | x in s[1..]) + {s[0]};
    }
  }

  /** If the first `c` candidates are all taken, there are at least `c`
      names: the allocator needs no more tries than there are names. */
  lemma CandidatesTakenBound(c: nat, names: seq<Name>)
    requires forall j :: 0 <= j < c ==> CandidateFileName(j) in names
    ensures c <= |names|
  {
    var f: nat -> Name := CandidateFileName;
    forall i: nat, j: nat | i < c && j < c && f(i) == f(j) ensures i == j {
      CandidateFileNameInjective(i, j);
    }
    ImageSize(f, c);
    SubsetSize(set j: nat | j < c :: f(j), set x | x in names);
    SeqSetSize(names);
  }

  /** The names of the markdown files listed in `d`, in listing order: the
      names a new default file name must avoid. */
  function MarkdownFileNames(root: Node, d: Path): (names: seq<Name>)
    requires IsDirectory(root, d)
    ensures |names| == |ListMarkdownFilesInDir(root, d)|
    ensures forall i :: 0 <= i < |names| ==> d + [names[i]] == ListMarkdownFilesInDir(root, d)[i]
  {
    var files := ListMarkdownFilesInDir(root, d);
    seq(|files|, i requires 0 <= i < |files| => FileName(files[i]))
  }

  /** Every candidate below counter `k` is among `names`. */
  predicate AllTakenBelow(names: seq<Name>, k: nat)
  {
    forall j :: 0 <= j < k ==> CandidateFileName(j) in names
  }

  /** One more taken candidate extends the taken prefix, and the prefix never
      outgrows the list of names. */
  lemma TakenStep(names: seq<Name>, counter: nat)
    requires AllTakenBelow(names, counter) && CandidateFileName(counter) in names
    ensures AllTakenBelow(names, counter + 1) && counter + 1 <= |names|
  {
    assert AllTakenBelow(names, counter + 1) by {
      forall j | 0 <= j < counter + 1 ensures CandidateFileName(j) in names {
        if j < counter {
          assert CandidateFileName(j) in names;
        }
      }
    }
    CandidatesTakenBound(counter + 1, names);
  }

  /** `get_default_new_file_name`: tries "New markdown file 0.md", then 1,
      2, ... and returns the first candidate that is not the name of a
      markdown file in `d`, after at most one try per listed file plus one. */
  method GetDefaultNewFileName(root: Node, d: Path) returns (name: Name)
    requires IsDirectory(root, d)
    ensures name !in MarkdownFileNames(root, d)
    ensures exists k :: 0 <= k <= |MarkdownFileNames(root, d)| && name == CandidateFileName(k) &&
                        AllTakenBelow(MarkdownFileNames(root, d), k)
  {
    var markdownFilesInDir := MarkdownFileNames(root, d);
    var counter := 0;
    var candidateName := CandidateFileName(counter);
    while candidateName in markdownFilesInDir
      invariant candidateName == CandidateFileName(counter)
      invariant AllTakenBelow(markdownFilesInDir, counter)
      invariant counter <= |markdownFilesInDir|
      decreases |markdownFilesInDir| - counter
    {
      TakenStep(markdownFilesInDir, counter);
      counter := counter + 1;
      candidateName := CandidateFileName(counter);
    }
    name := candidateName;
  }

  /** The name of every markdown file entry of `d` is among the names the
      allocator avoids. */
  lemma FileEntryIsListed(root: Node, d: Path, i: nat)
    requires IsDirectory(root, d) && i < |Children(root, d)|
    requires IsMarkdownFileEntry(Children(root, d)[i])
    ensures Children(root, d)[i].name in MarkdownFileNames(root, d)
  {
    var es := Children(root, d);
    var files := ListMarkdownFilesInDir(root, d);
    var names := MarkdownFileNames(root, d);
    var p := d + [es[i].name];
    MarkdownFilesAmongMembers(d, es);
    assert p in files;
    var m :| 0 <= m < |files| && files[m] == p;
    assert d + [names[m]] == p;
    assert names[m] == es[i].name;
  }

  /** A name the allocator may return is free of regular files in `d`: only
      a directory of that name can occupy it. */
  lemma DefaultNameShadowedOnlyByDirectory(root: Node, d: Path, k: nat)
    requires IsDirectory(root, d)
    requires CandidateFileName(k) !in MarkdownFileNames(root, d)
    ensures forall i :: 0 <= i < |Children(root, d)| && Children(root, d)[i].name == CandidateFileName(k) ==>
                        Children(root, d)[i].node.Dir?
  {
    var es := Children(root, d);
    CandidateIsMarkdownName(k);
    forall i | 0 <= i < |es| && es[i].node.File? ensures es[i].name != CandidateFileName(k) {
      if IsMarkdownFileEntry(es[i]) {
        FileEntryIsListed(root, d, i);
      }
    }
  }

  /** `create_new_markdown_file`: `touch` with `exist_ok=False` creates an
      empty regular file at `d / name` and returns its path; it fails when
      `d` is missing or when anything already occupies `d / name`. */
  method CreateNewMarkdownFile(fs: Disk, d: Path, name: Name, now: int) returns (r: Result<Path, IoError>)
    requires fs.Valid() && IsPlainName(name)
    modifies fs
    ensures fs.Valid()
    ensures !IsDirectory(old(fs.root), d) ==> r == Err(FileNotFound) && fs.root == old(fs.root)
    ensures IsDirectory(old(fs.root), d) && Find(Children(old(fs.root), d), name).Some? ==>
              r == Err(FileExists) && fs.root == old(fs.root)
    ensures IsDirectory(old(fs.root), d) && Find(Children(old(fs.root), d), name).None? ==>
              r == Ok(d + [name]) && fs.root == WithNewFile(old(fs.root), d, name, now)
    ensures r.Ok? ==>
              forall q :: StatAt(fs.root, q) ==
                if q == d + [name] then Some(Stat(RegularFile, now, "")) else StatAt(old(fs.root), q)
  {
    var newFilePath := d + [name];
    if !IsDirectory(fs.root, d) {
      return Err(FileNotFound);
    }
    if Find(Children(fs.root, d), name).Some? {
      return Err(FileExists);
    }
    StatAfterNewFile(fs.root, d, name, now);
    WellFormedAfterNewFile(fs.root, d, name, now);
    fs.root := WithNewFile(fs.root, d, name, now);
    r := Ok(newFilePath);
  }

  /** Creating a file appends it to the file listing of `d` when its name
      passes the markdown test, and leaves the directory listing alone. */
  lemma ListingsAfterNewFile(root: Node, d: Path, name: Name, now: int)
    requires IsDirectory(root, d) && Find(Children(root, d), name).None?
    ensures IsDirectory(WithNewFile(root, d, name, now), d)
    ensures ListMarkdownFilesInDir(WithNewFile(root, d, name, now), d) ==
            ListMarkdownFilesInDir(root, d) +
            (if Suffix(name) == MarkdownSuffix && name != IndexName then [d + [name]] else [])
    ensures ListMarkdownDirsInDir(WithNewFile(root, d, name, now), d) == ListMarkdownDirsInDir(root, d)
  {
    var es := Children(root, d);
    var e := Entry(name, File(now, ""));
    FileListingPreservesOrder(d, es, [e]);
    DirListingPreservesOrder(d, es, [e]);
    assert [e][1..] == [];
  }

  /** `rename_markdown_file`: renames `d / (originalName + ".md")` to
      `d / (newName + ".md")`, moving whatever is there. Renaming a name to
      itself changes nothing. */
  method RenameMarkdownFile(fs: Disk, originalName: string, newName: string, d: Path) returns (r: Outcome<IoError>)
    requires fs.Valid() && '/' !in originalName && '/' !in newName
    modifies fs
    ensures fs.Valid()
    ensures var src := AddMarkdownExtension(originalName);
            !IsDirectory(old(fs.root), d) || Find(Children(old(fs.root), d), src).None? ==>
              r == Fail(FileNotFound) && fs.root == old(fs.root)
    ensures var src, dst := AddMarkdownExtension(originalName), AddMarkdownExtension(newName);
            IsDirectory(old(fs.root), d) && Find(Children(old(fs.root), d), src).Some? ==>
              if originalName == newName then
                r == Pass && fs.root == old(fs.root)
              else if Find(Children(old(fs.root), d), dst).Some? then
                r == Fail(FileExists) && fs.root == old(fs.root)
              else
                r == Pass && fs.root == WithRenamed(old(fs.root), d, src, dst)
    ensures var src, dst := AddMarkdownExtension(originalName), AddMarkdownExtension(newName);
            r.Pass? && originalName != newName ==>
              forall q :: StatAt(fs.root, q) ==
                if d + [src] <= q then None
                else if d + [dst] <= q then StatAt(old(fs.root), d + [src] + q[|d| + 1..])
                else StatAt(old(fs.root), q)
  {
    var file := AddMarkdownExtension(originalName);
    var target := AddMarkdownExtension(newName);
    if !IsDirectory(fs.root, d) || Find(Children(fs.root, d), file).None? {
      return Fail(FileNotFound);
    }
    if file == target {
      assert originalName == RemoveSuffix(file, MarkdownSuffix) == newName;
      return Pass;
    }
    if Find(Children(fs.root, d), target).Some? {
      return Fail(FileExists);
    }
    StatAfterRename(fs.root, d, file, target);
    WellFormedAfterRename(fs.root, d, file, target);
    fs.root := WithRenamed(fs.root, d, file, target);
    r := Pass;
  }
}
