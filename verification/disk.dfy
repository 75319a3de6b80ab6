/** An in-memory model of the directory tree the indexer reads.

    A path is absolute and already cleaned: the sequence of its segments below the
    filesystem root, so that `[]` is "/". A directory lists its entries in the order
    Go's `ioutil.ReadDir` returns them: sorted by name. The two predicates the indexer
    consults about paths (whether a directory is reserved, whether a file is a
    markdown document) live in packages that are not part of this model; they are
    carried as total functions of the path. */
module Disk {
  import opened Outcomes

  type Name = string
  type Path = seq<Name>

  datatype Node = File(name: Name) | Directory(name: Name, entries: seq<Node>)

  /** Strict lexicographic order on names, by code point. */
  predicate NameBefore(a: Name, b: Name)
  {
    if |a| == 0 then |b| != 0
    else if |b| == 0 then false
    else a[0] < b[0] || (a[0] == b[0] && NameBefore(a[1..], b[1..]))
  }

  /** Every directory lists its entries strictly sorted by name (so names are unique). */
  predicate WellFormed(n: Node)
    decreases n
  {
    match n
    case File(_) => true
    case Directory(_, es) =>
      && (forall i, j {:trigger NameBefore(es[i].name, es[j].name)} :: 0 <= i < j < |es| ==> NameBefore(es[i].name, es[j].name))
      && (forall i :: 0 <= i < |es| ==> WellFormed(es[i]))
  }

  /** The tree under "/": a well-formed directory. */
  type Tree = n: Node | n.Directory? && WellFormed(n) witness Directory("", [])

  /** The disk as the indexer sees it: the tree, and the unseen path predicates
      `isReservedDirectory` and `isMarkdownFile`. */
  datatype FileSystem = FileSystem(root: Tree, isReserved: Path -> bool, isMarkdown: Path -> bool)

  /** The first entry with the given name. */
  function Child(es: seq<Node>, name: Name): (r: Option<Node>)
    ensures r.Some? ==> r.value in es && r.value.name == name
  {
    if es == [] then None
    else if es[0].name == name then Some(es[0])
    else Child(es[1..], name)
  }

  /** The node reached from `n` by following the relative path `rel`. */
  function Lookup(n: Node, rel: Path): Option<Node>
    decreases |rel|
  {
    if rel == [] then Some(n)
    else match n
      case File(_) => None
      case Directory(_, es) =>
        match Child(es, rel[0])
        case None => None
        case Some(c) => Lookup(c, rel[1..])
  }

  function Height(n: Node): nat
    decreases n, 1
  {
    match n
    case File(_) => 0
    case Directory(_, es) => 1 + MaxHeight(n, |es|)
  }

  /** The largest height among the first k entries of a directory. */
  function MaxHeight(n: Node, k: nat): (r: nat)
    requires n.Directory? && k <= |n.entries|
    ensures forall i :: 0 <= i < k ==> Height(n.entries[i]) <= r
    decreases n, 0, k
  {
    if k == 0 then 0
    else
      var h := Height(n.entries[k - 1]);
      var m := MaxHeight(n, k - 1);
      if h < m then m else h
  }

  function NodeAt(fs: FileSystem, p: Path): Option<Node>
  {
    Lookup(fs.root, p)
  }

  /** `fsutil.PathExists` */
  predicate PathExists(fs: FileSystem, p: Path)
  {
    NodeAt(fs, p).Some?
  }

  /** `fsutil.IsDirectory`, with its error ignored as the indexer does */
  predicate IsDirectory(fs: FileSystem, p: Path)
  {
    NodeAt(fs, p).Some? && NodeAt(fs, p).value.Directory?
  }

  predicate IsFile(fs: FileSystem, p: Path)
  {
    NodeAt(fs, p).Some? && NodeAt(fs, p).value.File?
  }

  /** `ioutil.ReadDir` with its error ignored: a missing path or a file lists nothing. */
  function ReadDir(fs: FileSystem, p: Path): seq<Node>
  {
    if IsDirectory(fs, p) then NodeAt(fs, p).value.entries else []
  }

  /** `filepath.Dir` on a clean absolute path; the parent of "/" is "/". */
  function Parent(p: Path): Path
  {
    if p == [] then [] else p[..|p| - 1]
  }

  lemma ParentAndLast(p: Path)
    requires p != []
    ensures Parent(p) + [p[|p| - 1]] == p
  {
  }

  /** `filepath.Base` on a clean absolute path; the base of "/" is "/". */
  function Base(p: Path): Name
  {
    if p == [] then "/" else p[|p| - 1]
  }

  /** `base` is `p` itself or one of its ancestors. */
  predicate IsPrefix(base: Path, p: Path)
  {
    |base| <= |p| && p[..|base|] == base
  }

  lemma {:induction false} NameBeforeIrreflexive(a: Name)
    ensures !NameBefore(a, a)
    decreases |a|
  {
    if |a| != 0 {
      NameBeforeIrreflexive(a[1..]);
    }
  }

  lemma {:induction false} NameBeforeAsymmetric(a: Name, b: Name)
    requires NameBefore(a, b)
    ensures !NameBefore(b, a)
    decreases |a|
  {
    if |a| != 0 && |b| != 0 && a[0] == b[0] {
      NameBeforeAsymmetric(a[1..], b[1..]);
    }
  }

  /** In a well-formed directory an entry is found by its own name. */
  lemma {:induction false} ChildOfSortedEntries(es: seq<Node>, m: nat)
    requires m < |es|
    requires forall i, j :: 0 <= i < j < |es| ==> NameBefore(es[i].name, es[j].name)
    ensures Child(es, es[m].name) == Some(es[m])
  {
    if m > 0 {
      NameBeforeIrreflexive(es[m].name);
      assert es[0].name != es[m].name;
      ChildOfSortedEntries(es[1..], m - 1);
    }
  }

  /** Looking up a concatenated path is looking up its parts one after the other. */
  lemma {:induction false} LookupConcat(n: Node, p: Path, q: Path)
    ensures Lookup(n, p + q) == (if Lookup(n, p).Some? then Lookup(Lookup(n, p).value, q) else None)
    decreases |p|
  {
    if p == [] {
      assert p + q == q;
    } else {
      assert (p + q)[0] == p[0];
      assert (p + q)[1..] == p[1..] + q;
      match n
      case File(_) =>
      case Directory(_, es) =>
        match Child(es, p[0])
        case None =>
        case Some(c) => LookupConcat(c, p[1..], q);
    }
  }

  /** A node found at depth |rel| leaves room for its own height. */
  lemma {:induction false} LookupHeight(n: Node, rel: Path)
    requires Lookup(n, rel).Some?
    ensures |rel| + Height(Lookup(n, rel).value) <= Height(n)
    decreases |rel|
  {
    if rel != [] {
      var c := Child(n.entries, rel[0]).value;
      var i :| 0 <= i < |n.entries| && n.entries[i] == c;
      assert Height(n.entries[i]) <= MaxHeight(n, |n.entries|);
      LookupHeight(c, rel[1..]);
    }
  }

  lemma {:induction false} LookupWellFormed(n: Node, rel: Path)
    requires WellFormed(n) && Lookup(n, rel).Some?
    ensures WellFormed(Lookup(n, rel).value)
    decreases |rel|
  {
    if rel != [] {
      var c := Child(n.entries, rel[0]).value;
      var i :| 0 <= i < |n.entries| && n.entries[i] == c;
      LookupWellFormed(c, rel[1..]);
    }
  }

  /** Every existing path lies within the height of the tree. */
  lemma ExistingPathDepth(fs: FileSystem, p: Path)
    requires PathExists(fs, p)
    ensures |p| <= Height(fs.root)
  {
    LookupHeight(fs.root, p);
  }

  /** A directory that has entries lies strictly within the height of the tree. */
  lemma ListedDirectoryDepth(fs: FileSystem, d: Path)
    requires |ReadDir(fs, d)| > 0
    ensures |d| + 1 <= Height(fs.root)
  {
    var n := NodeAt(fs, d).value;
    LookupHeight(fs.root, d);
    assert Height(n.entries[0]) <= MaxHeight(n, |n.entries|);
  }

  /** The entry listed at position i of directory d is found at d + [its name]. */
  lemma EntryAt(fs: FileSystem, d: Path, i: nat)
    requires i < |ReadDir(fs, d)|
    ensures NodeAt(fs, d + [ReadDir(fs, d)[i].name]) == Some(ReadDir(fs, d)[i])
  {
    var n := NodeAt(fs, d).value;
    LookupWellFormed(fs.root, d);
    LookupConcat(fs.root, d, [n.entries[i].name]);
    ChildOfSortedEntries(n.entries, i);
    assert [n.entries[i].name][1..] == [];
  }

  /** A file's parent is a directory: the path the indexer falls back to. */
  lemma ParentOfFile(fs: FileSystem, p: Path)
    requires IsFile(fs, p)
    ensures p != [] && IsDirectory(fs, Parent(p))
  {
    var last := [p[|p| - 1]];
    assert Parent(p) + last == p;
    LookupConcat(fs.root, Parent(p), last);
    assert last[1..] == [];
  }
}
