/** An abstract filesystem: the state that `iterdir`, `stat`, `touch` and
    `rename` observe and change. A directory is the sequence of its entries
    in iteration order; every entry is a name bound to a regular file (its
    modification time and text) or to a directory (its modification time and
    entries). */
module FileSystem {
  import opened Wrappers
  import opened Paths

  datatype Node =
    | File(mtime: int, content: string)
    | Dir(mtime: int, entries: seq<Entry>)

  datatype Entry = Entry(name: Name, node: Node)

  datatype Kind = RegularFile | Directory

  /** What `stat` reports about one path, without its children. */
  datatype Stat = Stat(kind: Kind, mtime: int, content: string)

  function StatOf(n: Node): (s: Stat)
    ensures s.mtime == n.mtime
    ensures s.kind == RegularFile <==> n.File?
  {
    match n
    case File(m, c) => Stat(RegularFile, m, c)
    case Dir(m, _) => Stat(Directory, m, "")
  }

  /** The index of the first entry called `name`, if there is one. */
  function Find(es: seq<Entry>, name: Name): (r: Option<nat>)
    ensures r.Some? ==> r.value < |es| && es[r.value].name == name
    ensures r.Some? ==> forall j :: 0 <= j < r.value ==> es[j].name != name
    ensures r.None? ==> forall j :: 0 <= j < |es| ==> es[j].name != name
  {
    if es == [] then None
    else if es[0].name == name then Some(0)
    else match Find(es[1..], name)
      case None => None
      case Some(i) => Some(i + 1)
  }

  /** Two entry sequences with the same names in the same order resolve every
      name to the same index. */
  lemma FindSameNames(es: seq<Entry>, es': seq<Entry>, name: Name)
    requires |es| == |es'|
    requires forall k :: 0 <= k < |es| ==> es[k].name == es'[k].name
    ensures Find(es, name) == Find(es', name)
  {
  }

  /** `Find` returns exactly the first index carrying the name. */
  lemma FindIs(es: seq<Entry>, name: Name, k: nat)
    requires k < |es| && es[k].name == name
    requires forall j :: 0 <= j < k ==> es[j].name != name
    ensures Find(es, name) == Some(k)
  {
  }

  /** The node a path resolves to, walking down from `n`. */
  function Lookup(n: Node, p: Path): Option<Node>
    decreases |p|
  {
    if p == [] then Some(n)
    else match n
      case File(_, _) => None
      case Dir(_, es) =>
        match Find(es, p[0])
        case None => None
        case Some(i) => Lookup(es[i].node, p[1..])
  }

  function StatAt(root: Node, p: Path): Option<Stat>
  {
    match Lookup(root, p)
    case None => None
    case Some(n) => Some(StatOf(n))
  }

  predicate Exists(root: Node, p: Path)
  {
    Lookup(root, p).Some?
  }

  predicate IsDirectory(root: Node, p: Path)
  {
    Lookup(root, p).Some? && Lookup(root, p).value.Dir?
  }

  /** `iterdir`: the entries of an existing directory, in iteration order. */
  function Children(root: Node, d: Path): (es: seq<Entry>)
    requires IsDirectory(root, d)
  {
    Lookup(root, d).value.entries
  }

  /** Resolving `a + b` is resolving `a`, then `b` from there. */
  lemma {:induction false} LookupConcat(n: Node, a: Path, b: Path)
    requires Exists(n, a)
    ensures Lookup(n, a + b) == Lookup(Lookup(n, a).value, b)
    decreases |a|
  {
    if a != [] {
      var i := Find(n.entries, a[0]).value;
      assert (a + b)[0] == a[0] && (a + b)[1..] == a[1..] + b;
      assert Lookup(n, a) == Lookup(n.entries[i].node, a[1..]);
      assert Lookup(n, a + b) == Lookup(n.entries[i].node, a[1..] + b);
      LookupConcat(n.entries[i].node, a[1..], b);
    } else {
      assert a + b == b;
    }
  }

  /** The child `name` of directory `d` is the first entry of `d` so called. */
  lemma LookupChild(root: Node, d: Path, name: Name)
    requires IsDirectory(root, d)
    ensures Lookup(root, d + [name]) ==
            match Find(Children(root, d), name)
            case None => None
            case Some(i) => Some(Children(root, d)[i].node)
  {
    LookupConcat(root, d, [name]);
  }

  predicate DistinctNames(es: seq<Entry>)
  {
    forall i, j :: 0 <= i < j < |es| ==> es[i].name != es[j].name
  }

  /** No directory anywhere in the tree holds two entries with one name. */
  predicate WellFormed(n: Node)
  {
    match n
    case File(_, _) => true
    case Dir(_, es) =>
      DistinctNames(es) && forall i :: 0 <= i < |es| ==> WellFormed(es[i].node)
  }

  lemma {:induction false} WellFormedLookup(n: Node, p: Path)
    requires WellFormed(n) && Exists(n, p)
    ensures WellFormed(Lookup(n, p).value)
    decreases |p|
  {
    if p != [] {
      var i := Find(n.entries, p[0]).value;
      WellFormedLookup(n.entries[i].node, p[1..]);
    }
  }

  /** In a well-formed directory, the entry a name resolves to is the only one
      so called. */
  lemma FindUnique(es: seq<Entry>, k: nat)
    requires DistinctNames(es) && k < |es|
    ensures Find(es, es[k].name) == Some(k)
  {
  }

  /** The tree `n` with the entries of directory `d` replaced by `es'`; every
      directory keeps its modification time. */
  function ReplaceEntries(n: Node, d: Path, es': seq<Entry>): (r: Node)
    requires IsDirectory(n, d)
    ensures r.Dir? && r.mtime == n.mtime
    decreases |d|
  {
    if d == [] then Dir(n.mtime, es')
    else
      var i := Find(n.entries, d[0]).value;
      var e := n.entries[i];
      Dir(n.mtime, n.entries[i := Entry(e.name, ReplaceEntries(e.node, d[1..], es'))])
  }

  /** After the replacement, paths under `d` resolve among the new entries and
      every other path reports what it reported before. */
  lemma {:induction false} StatAfterReplace(n: Node, d: Path, es': seq<Entry>, q: Path)
    requires IsDirectory(n, d)
    ensures StatAt(ReplaceEntries(n, d, es'), q) ==
            if d <= q then StatAt(Dir(Lookup(n, d).value.mtime, es'), q[|d|..])
            else StatAt(n, q)
    decreases |d|
  {
    if d != [] && q != [] {
      var es := n.entries;
      var i := Find(es, d[0]).value;
      var e := es[i];
      var r := ReplaceEntries(e.node, d[1..], es');
      var updated := es[i := Entry(e.name, r)];
      FindSameNames(es, updated, q[0]);
      if q[0] == d[0] {
        StatAfterReplace(e.node, d[1..], es', q[1..]);
        assert d <= q <==> d[1..] <= q[1..];
        if d <= q {
          assert q[|d|..] == q[1..][|d| - 1..];
        }
      } else {
        assert !(d <= q);
      }
    }
  }

  lemma {:induction false} LookupAfterReplace(n: Node, d: Path, es': seq<Entry>)
    requires IsDirectory(n, d)
    ensures Lookup(ReplaceEntries(n, d, es'), d) == Some(Dir(Lookup(n, d).value.mtime, es'))
    decreases |d|
  {
    if d != [] {
      var es := n.entries;
      var i := Find(es, d[0]).value;
      var e := es[i];
      var updated := es[i := Entry(e.name, ReplaceEntries(e.node, d[1..], es'))];
      FindSameNames(es, updated, d[0]);
      LookupAfterReplace(e.node, d[1..], es');
    }
  }

  lemma {:induction false} WellFormedReplace(n: Node, d: Path, es': seq<Entry>)
    requires WellFormed(n) && IsDirectory(n, d)
    requires DistinctNames(es') && forall k :: 0 <= k < |es'| ==> WellFormed(es'[k].node)
    ensures WellFormed(ReplaceEntries(n, d, es'))
    decreases |d|
  {
    if d != [] {
      var es := n.entries;
      var i := Find(es, d[0]).value;
      var e := es[i];
      WellFormedReplace(e.node, d[1..], es');
      var updated := es[i := Entry(e.name, ReplaceEntries(e.node, d[1..], es'))];
      assert forall k :: 0 <= k < |updated| ==> updated[k].name == es[k].name;
    }
  }

  /** `(d / name).touch()` on a name not yet in `d`: a new empty regular file
      stamped `now`, appended to the directory's iteration order. */
  function WithNewFile(root: Node, d: Path, name: Name, now: int): (r: Node)
    requires IsDirectory(root, d) && Find(Children(root, d), name).None?
    ensures IsDirectory(r, d) && Children(r, d) == Children(root, d) + [Entry(name, File(now, ""))]
  {
    LookupAfterReplace(root, d, Children(root, d) + [Entry(name, File(now, ""))]);
    ReplaceEntries(root, d, Children(root, d) + [Entry(name, File(now, ""))])
  }

  /** Creating a file adds exactly the path `d / name`, an empty regular file
      stamped `now`; every other path reports what it reported before. */
  lemma {:induction false} StatAfterNewFile(root: Node, d: Path, name: Name, now: int)
    requires IsDirectory(root, d) && Find(Children(root, d), name).None?
    ensures forall q :: StatAt(WithNewFile(root, d, name, now), q) ==
                        if q == d + [name] then Some(Stat(RegularFile, now, "")) else StatAt(root, q)
  {
    forall q
      ensures StatAt(WithNewFile(root, d, name, now), q) ==
              if q == d + [name] then Some(Stat(RegularFile, now, "")) else StatAt(root, q)
    {
      StatAfterNewFileAt(root, d, name, now, q);
    }
  }

  /** `StatAfterNewFile` for one path `q`. */
  lemma StatAfterNewFileAt(root: Node, d: Path, name: Name, now: int, q: Path)
    requires IsDirectory(root, d) && Find(Children(root, d), name).None?
    ensures StatAt(WithNewFile(root, d, name, now), q) ==
            if q == d + [name] then Some(Stat(RegularFile, now, "")) else StatAt(root, q)
  {
    var dn := Lookup(root, d).value;
    var es' := dn.entries + [Entry(name, File(now, ""))];
    assert WithNewFile(root, d, name, now) == ReplaceEntries(root, d, es');
    StatAfterReplace(root, d, es', q);
    if d <= q {
      var rest := q[|d|..];
      assert q == d + rest;
      assert q == d + [name] <==> rest == [name];
      LookupConcat(root, d, rest);
      NewFileInDir(dn.mtime, dn.entries, name, now, rest);
    } else {
      assert (d + [name])[..|d|] == d;
    }
  }

  /** Appending a file entry to a directory, seen from that directory. */
  lemma NewFileInDir(m: int, es: seq<Entry>, name: Name, now: int, rest: Path)
    requires Find(es, name).None?
    ensures StatAt(Dir(m, es + [Entry(name, File(now, ""))]), rest) ==
            if rest == [name] then Some(Stat(RegularFile, now, "")) else StatAt(Dir(m, es), rest)
  {
    var es' := es + [Entry(name, File(now, ""))];
    if rest != [] {
      var y := rest[0];
      if y == name {
        FindIs(es', name, |es|);
        assert Lookup(Dir(m, es'), rest) == Lookup(File(now, ""), rest[1..]);
        assert Lookup(Dir(m, es), rest) == None;
        if rest != [name] {
          assert rest == [y] + rest[1..];
          assert rest[1..] != [];
        }
      } else {
        var f := Find(es, y);
        if f.Some? {
          FindIs(es', y, f.value);
        } else {
          assert Find(es', y).None?;
        }
      }
    }
  }

  lemma {:induction false} WellFormedAfterNewFile(root: Node, d: Path, name: Name, now: int)
    requires WellFormed(root) && IsDirectory(root, d) && Find(Children(root, d), name).None?
    ensures WellFormed(WithNewFile(root, d, name, now))
  {
    var es := Children(root, d);
    WellFormedLookup(root, d);
    WellFormedReplace(root, d, es + [Entry(name, File(now, ""))]);
  }

  /** `(d / oldName).rename(d / newName)` where `oldName` exists and `newName` does not: the
      entry keeps its node and its place in the iteration order and takes
      the new name. */
  function WithRenamed(root: Node, d: Path, oldName: Name, newName: Name): (r: Node)
    requires IsDirectory(root, d)
    requires Find(Children(root, d), oldName).Some?
    ensures IsDirectory(r, d)
    ensures var es := Children(root, d); var i := Find(es, oldName).value;
            Children(r, d) == es[i := Entry(newName, es[i].node)]
  {
    var es := Children(root, d);
    var i := Find(es, oldName).value;
    LookupAfterReplace(root, d, es[i := Entry(newName, es[i].node)]);
    ReplaceEntries(root, d, es[i := Entry(newName, es[i].node)])
  }

  /** Renaming moves the whole subtree at `d / oldName` to `d / newName`: nothing is
      left at the old path, the new path reports what the old one did, and
      every path outside the two reports what it reported before. */
  lemma {:induction false} StatAfterRename(root: Node, d: Path, oldName: Name, newName: Name)
    requires WellFormed(root) && IsDirectory(root, d)
    requires Find(Children(root, d), oldName).Some? && Find(Children(root, d), newName).None?
    ensures forall q :: StatAt(WithRenamed(root, d, oldName, newName), q) ==
                        if d + [oldName] <= q then None
                        else if d + [newName] <= q then StatAt(root, d + [oldName] + q[|d| + 1..])
                        else StatAt(root, q)
  {
    forall q
      ensures StatAt(WithRenamed(root, d, oldName, newName), q) ==
              if d + [oldName] <= q then None
              else if d + [newName] <= q then StatAt(root, d + [oldName] + q[|d| + 1..])
              else StatAt(root, q)
    {
      StatAfterRenameAt(root, d, oldName, newName, q);
    }
  }

  /** `StatAfterRename` for one path `q`. */
  lemma {:induction false} StatAfterRenameAt(root: Node, d: Path, oldName: Name, newName: Name, q: Path)
    requires WellFormed(root) && IsDirectory(root, d)
    requires Find(Children(root, d), oldName).Some? && Find(Children(root, d), newName).None?
    ensures StatAt(WithRenamed(root, d, oldName, newName), q) ==
            if d + [oldName] <= q then None
            else if d + [newName] <= q then StatAt(root, d + [oldName] + q[|d| + 1..])
            else StatAt(root, q)
  {
    var dn := Lookup(root, d).value;
    var es := dn.entries;
    var i := Find(es, oldName).value;
    var es' := es[i := Entry(newName, es[i].node)];
    assert WithRenamed(root, d, oldName, newName) == ReplaceEntries(root, d, es');
    WellFormedLookup(root, d);
    StatAfterReplace(root, d, es', q);
    if d <= q {
      var rest := q[|d|..];
      assert q == d + rest;
      LookupConcat(root, d, rest);
      RenameInDir(dn.mtime, es, oldName, newName, rest);
      if rest != [] {
        assert d + [oldName] <= q <==> rest[0] == oldName;
        assert d + [newName] <= q <==> rest[0] == newName;
        if rest[0] == newName {
          assert d + [oldName] + q[|d| + 1..] == d + ([oldName] + rest[1..]);
          LookupConcat(root, d, [oldName] + rest[1..]);
        }
      }
    } else {
      assert (d + [oldName])[..|d|] == d && (d + [newName])[..|d|] == d;
    }
  }

  /** Renaming one entry of a directory whose names are distinct, seen
      from that directory. */
  lemma RenameInDir(m: int, es: seq<Entry>, oldName: Name, newName: Name, rest: Path)
    requires DistinctNames(es)
    requires Find(es, oldName).Some? && Find(es, newName).None?
    ensures var i := Find(es, oldName).value;
            StatAt(Dir(m, es[i := Entry(newName, es[i].node)]), rest) ==
            if rest != [] && rest[0] == oldName then None
            else if rest != [] && rest[0] == newName then StatAt(Dir(m, es), [oldName] + rest[1..])
            else StatAt(Dir(m, es), rest)
  {
    var i := Find(es, oldName).value;
    var es' := es[i := Entry(newName, es[i].node)];
    if rest != [] {
      var y := rest[0];
      if y == oldName {
        assert Find(es', oldName).None?;
      } else if y == newName {
        FindIs(es', newName, i);
        assert ([oldName] + rest[1..])[0] == oldName && ([oldName] + rest[1..])[1..] == rest[1..];
      } else {
        var f := Find(es, y);
        if f.Some? {
          FindIs(es', y, f.value);
        } else {
          assert Find(es', y).None?;
        }
      }
    }
  }

  lemma {:induction false} WellFormedAfterRename(root: Node, d: Path, oldName: Name, newName: Name)
    requires WellFormed(root) && IsDirectory(root, d)
    requires Find(Children(root, d), oldName).Some? && Find(Children(root, d), newName).None?
    ensures WellFormed(WithRenamed(root, d, oldName, newName))
  {
    var es := Children(root, d);
    var i := Find(es, oldName).value;
    WellFormedLookup(root, d);
    WellFormedReplace(root, d, es[i := Entry(newName, es[i].node)]);
  }

  /** The mutable filesystem the store works on. */
  class Disk {
    var root: Node

    ghost predicate Valid()
      reads this
    {
      root.Dir? && WellFormed(root)
    }

    constructor (root: Node)
      requires root.Dir? && WellFormed(root)
      ensures Valid() && this.root == root
    {
      this.root := root;
    }
  }
}
