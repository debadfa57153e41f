/** The part of `pathlib` the store uses. A path is the sequence of names
    leading to it from the filesystem root; the root itself is `[]`. */
module Paths {
  import opened Text

  type Name = string
  type Path = seq<Name>

  /** The reserved name of a directory task's own note. */
  const IndexName: Name := "_index.md"

  const MarkdownSuffix: string := ".md"

  /** `path.parent`: the path without its last name; the root is its own
      parent. */
  function Parent(p: Path): (r: Path)
    ensures p != [] ==> r + [p[|p| - 1]] == p
    ensures p == [] ==> r == []
  {
    if p == [] then [] else p[..|p| - 1]
  }

  /** `path.name`: the last name of the path, empty for the root. */
  function FileName(p: Path): (r: Name)
    ensures p != [] ==> Parent(p) + [r] == p
    ensures p == [] ==> r == ""
  {
    if p == [] then "" else p[|p| - 1]
  }

  /** `path.suffix`: from the last dot on, provided that dot is neither the
      first nor the last character of the name; otherwise empty. */
  function Suffix(name: Name): (r: string)
    ensures r != "" ==> |r| >= 2 && r[0] == '.' && |r| < |name| && EndsWith(name, r)
    ensures r != "" ==> forall j :: 0 < j < |r| ==> r[j] != '.'
  {
    var i := LastIndexOf(name, '.');
    if 0 < i < |name| - 1 then name[i..] else ""
  }

  /** A name has the markdown suffix exactly when it ends in ".md" and has at
      least one character before it, so a bare ".md" does not qualify. */
  lemma {:induction false} MarkdownSuffixIff(name: Name)
    ensures Suffix(name) == MarkdownSuffix <==> |name| > |MarkdownSuffix| && EndsWith(name, MarkdownSuffix)
  {
    var n := |name|;
    if |name| > 3 && EndsWith(name, MarkdownSuffix) {
      assert name[n - 3] == '.' && name[n - 2] == 'm' && name[n - 1] == 'd';
      var i := LastIndexOf(name, '.');
      assert i == n - 3;
      assert name[i..] == MarkdownSuffix;
    }
    if Suffix(name) == MarkdownSuffix {
      var i := LastIndexOf(name, '.');
      assert name[i..] == MarkdownSuffix;
      assert i == n - 3;
    }
  }

  /** The reserved index name passes the suffix test, so the listing must
      exclude it by name; a bare ".md" does not pass it. */
  lemma SuffixEdgeCases()
    ensures Suffix(IndexName) == MarkdownSuffix
    ensures Suffix(MarkdownSuffix) == ""
  {
    MarkdownSuffixIff(IndexName);
    MarkdownSuffixIff(MarkdownSuffix);
  }
}
