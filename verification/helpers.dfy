/** The directory helpers of the filesystem package that the indexer calls:
    `findMarkdownFileInDirectory`, `getChildDirectories` and `getFiles`. Their source is
    not part of this model; they are given the behaviour the indexer relies on, reading
    directory listings in `ioutil.ReadDir` order. */
module DirectoryHelpers {
  import opened Outcomes
  import opened Disk

  /** An entry of `directory` that is a markdown file. */
  predicate IsMarkdownEntry(fs: FileSystem, directory: Path, e: Node)
  {
    e.File? && fs.isMarkdown(directory + [e.name])
  }

  /** The position of the first markdown file at or after position i of the listing. */
  function FirstMarkdownIndex(fs: FileSystem, directory: Path, i: nat): (r: Option<nat>)
    requires i <= |ReadDir(fs, directory)|
    ensures r.Some? ==> i <= r.value < |ReadDir(fs, directory)|
    decreases |ReadDir(fs, directory)| - i
  {
    if i == |ReadDir(fs, directory)| then None
    else if IsMarkdownEntry(fs, directory, ReadDir(fs, directory)[i]) then Some(i)
    else FirstMarkdownIndex(fs, directory, i + 1)
  }

  /** The position found holds a markdown file and none comes before it; no position
      is found only when there is none from i on. */
  lemma {:induction false} FirstMarkdownIndexIsFirst(fs: FileSystem, directory: Path, i: nat)
    requires i <= |ReadDir(fs, directory)|
    ensures var r := FirstMarkdownIndex(fs, directory, i);
            && (r.Some? ==> IsMarkdownEntry(fs, directory, ReadDir(fs, directory)[r.value]))
            && (r.Some? ==> forall j :: i <= j < r.value ==> !IsMarkdownEntry(fs, directory, ReadDir(fs, directory)[j]))
            && (r.None? ==> forall j :: i <= j < |ReadDir(fs, directory)| ==> !IsMarkdownEntry(fs, directory, ReadDir(fs, directory)[j]))
    decreases |ReadDir(fs, directory)| - i
  {
    if i < |ReadDir(fs, directory)| && !IsMarkdownEntry(fs, directory, ReadDir(fs, directory)[i]) {
      FirstMarkdownIndexIsFirst(fs, directory, i + 1);
    }
  }

  /** `findMarkdownFileInDirectory`: the markdown file of `directory` that comes first by
      name, if there is one. A path that is not a directory lists nothing. */
  function FindMarkdownFileInDirectory(fs: FileSystem, directory: Path): (r: Option<Path>)
    ensures r.Some? ==> IsFile(fs, r.value) && fs.isMarkdown(r.value)
    ensures r.Some? ==> r.value != [] && Parent(r.value) == directory
  {
    match FirstMarkdownIndex(fs, directory, 0)
    case None => None
    case Some(k) =>
      var es := ReadDir(fs, directory);
      var file := directory + [es[k].name];
      FirstMarkdownIndexIsFirst(fs, directory, 0);
      EntryAt(fs, directory, k);
      assert Parent(file) == directory;
      Some(file)
  }

  /** No markdown file of `directory` comes before the one found by name, and none is
      found only when the directory lists no markdown file at all. */
  lemma FindMarkdownFileInDirectoryIsFirst(fs: FileSystem, directory: Path)
    ensures var r := FindMarkdownFileInDirectory(fs, directory);
            && (r.Some? ==> forall j :: 0 <= j < |ReadDir(fs, directory)| && NameBefore(ReadDir(fs, directory)[j].name, Base(r.value))
                              ==> !IsMarkdownEntry(fs, directory, ReadDir(fs, directory)[j]))
            && (r.None? <==> forall j :: 0 <= j < |ReadDir(fs, directory)| ==> !IsMarkdownEntry(fs, directory, ReadDir(fs, directory)[j]))
  {
    var es := ReadDir(fs, directory);
    FirstMarkdownIndexIsFirst(fs, directory, 0);
    match FirstMarkdownIndex(fs, directory, 0)
    case None =>
    case Some(k) =>
      assert IsMarkdownEntry(fs, directory, es[k]);
      assert Base(directory + [es[k].name]) == es[k].name;
      forall j | 0 <= j < |es| && NameBefore(es[j].name, es[k].name) ensures j < k {
        LookupWellFormed(fs.root, directory);
        if j == k {
          NameBeforeIrreflexive(es[k].name);
        } else if k < j {
          NameBeforeAsymmetric(es[k].name, es[j].name);
        }
      }
  }

  /** Paths in strictly increasing order of their last segment. */
  predicate SortedByName(r: seq<Path>)
  {
    forall i, j :: 0 <= i < j < |r| ==> NameBefore(Base(r[i]), Base(r[j]))
  }

  /** The child directories among the first k entries `es` listed for `directory`,
      reserved ones left out. */
  function ChildDirectories(fs: FileSystem, directory: Path, es: seq<Node>, k: nat): seq<Path>
    requires k <= |es|
  {
    if k == 0 then []
    else
      var c := directory + [es[k - 1].name];
      ChildDirectories(fs, directory, es, k - 1) + (if es[k - 1].Directory? && !fs.isReserved(c) then [c] else [])
  }

  /** The paths kept are exactly those of the non-reserved directory entries. */
  lemma {:induction false} ChildDirectoriesListed(fs: FileSystem, directory: Path, es: seq<Node>, k: nat)
    requires k <= |es|
    ensures forall c :: c in ChildDirectories(fs, directory, es, k) ==>
              exists i :: 0 <= i < k && c == directory + [es[i].name] && es[i].Directory? && !fs.isReserved(c)
    ensures forall i :: 0 <= i < k && es[i].Directory? && !fs.isReserved(directory + [es[i].name]) ==>
              directory + [es[i].name] in ChildDirectories(fs, directory, es, k)
  {
    if k > 0 {
      ChildDirectoriesListed(fs, directory, es, k - 1);
    }
  }

  lemma {:induction false} ChildDirectoriesSorted(fs: FileSystem, directory: Path, es: seq<Node>, k: nat)
    requires k <= |es|
    requires forall i, j :: 0 <= i < j < |es| ==> NameBefore(es[i].name, es[j].name)
    ensures SortedByName(ChildDirectories(fs, directory, es, k))
  {
    if k > 0 {
      ChildDirectoriesSorted(fs, directory, es, k - 1);
      ChildDirectoriesListed(fs, directory, es, k - 1);
      var rest := ChildDirectories(fs, directory, es, k - 1);
      var c := directory + [es[k - 1].name];
      if es[k - 1].Directory? && !fs.isReserved(c) {
        var r := rest + [c];
        assert ChildDirectories(fs, directory, es, k) == r;
        forall i, j | 0 <= i < j < |r| ensures NameBefore(Base(r[i]), Base(r[j])) {
          if j == |rest| {
            assert r[i] in rest;
            var m :| 0 <= m < k - 1 && r[i] == directory + [es[m].name] && es[m].Directory? && !fs.isReserved(r[i]);
            assert Base(r[i]) == es[m].name && Base(r[j]) == es[k - 1].name;
            assert NameBefore(es[m].name, es[k - 1].name);
          } else {
            assert r[i] == rest[i] && r[j] == rest[j];
            assert NameBefore(Base(rest[i]), Base(rest[j]));
          }
        }
      } else {
        assert ChildDirectories(fs, directory, es, k) == rest + [] == rest;
      }
    }
  }

  /** `getChildDirectories`: the subdirectories of `directory` that are not reserved, in
      listing order. */
  function GetChildDirectories(fs: FileSystem, directory: Path): (r: seq<Path>)
    ensures forall c {:trigger c in r} :: c in r <==> (|c| == |directory| + 1 && Parent(c) == directory && IsDirectory(fs, c) && !fs.isReserved(c))
  {
    var es := ReadDir(fs, directory);
    var r := ChildDirectories(fs, directory, es, |es|);
    GetChildDirectoriesMembers(fs, directory, es, r);
    r
  }

  /** The child directories come in increasing order of their names. */
  lemma GetChildDirectoriesSorted(fs: FileSystem, directory: Path)
    ensures SortedByName(GetChildDirectories(fs, directory))
  {
    var es := ReadDir(fs, directory);
    if es != [] {
      LookupWellFormed(fs.root, directory);
      ChildDirectoriesSorted(fs, directory, es, |es|);
    }
  }

  lemma {:induction false} GetChildDirectoriesMembers(fs: FileSystem, directory: Path, es: seq<Node>, r: seq<Path>)
    requires es == ReadDir(fs, directory) && r == ChildDirectories(fs, directory, es, |es|)
    ensures forall c {:trigger c in r} :: c in r <==> (|c| == |directory| + 1 && Parent(c) == directory && IsDirectory(fs, c) && !fs.isReserved(c))
  {
    forall c | c in r ensures |c| == |directory| + 1 && Parent(c) == directory && IsDirectory(fs, c) && !fs.isReserved(c) {
      ListedChildIsChild(fs, directory, es, r, c);
    }
    forall c | |c| == |directory| + 1 && Parent(c) == directory && IsDirectory(fs, c) && !fs.isReserved(c) ensures c in r {
      ChildIsListed(fs, directory, es, r, c);
    }
  }

  lemma {:induction false} ListedChildIsChild(fs: FileSystem, directory: Path, es: seq<Node>, r: seq<Path>, c: Path)
    requires es == ReadDir(fs, directory) && r == ChildDirectories(fs, directory, es, |es|)
    requires c in r
    ensures |c| == |directory| + 1 && Parent(c) == directory && IsDirectory(fs, c) && !fs.isReserved(c)
  {
    ChildDirectoriesListed(fs, directory, es, |es|);
    var i :| 0 <= i < |es| && c == directory + [es[i].name] && es[i].Directory? && !fs.isReserved(c);
    EntryAt(fs, directory, i);
    assert c[..|c| - 1] == directory;
  }

  lemma {:induction false} ChildIsListed(fs: FileSystem, directory: Path, es: seq<Node>, r: seq<Path>, c: Path)
    requires es == ReadDir(fs, directory) && r == ChildDirectories(fs, directory, es, |es|)
    requires |c| == |directory| + 1 && Parent(c) == directory && IsDirectory(fs, c) && !fs.isReserved(c)
    ensures c in r
  {
    ChildDirectoriesListed(fs, directory, es, |es|);
    var last := [c[|c| - 1]];
    ParentAndLast(c);
    LookupConcat(fs.root, directory, last);
    assert last[1..] == [];
    var n := NodeAt(fs, directory).value;
    var e := Child(n.entries, c[|c| - 1]).value;
    var i :| 0 <= i < |n.entries| && n.entries[i] == e;
    assert es[i] == e && e.name == c[|c| - 1];
    assert directory + [es[i].name] == c;
  }

  /** No directory strictly between `top` and `f` is reserved. */
  predicate NotUnderReserved(fs: FileSystem, top: Path, f: Path)
  {
    forall k :: |top| < k < |f| ==> !fs.isReserved(f[..k])
  }

  /** The files below directory node n (found at p) among its first k entries, walking
      into subdirectories that are not reserved. */
  function FilesIn(fs: FileSystem, n: Node, p: Path, k: nat): seq<Path>
    requires n.Directory? && k <= |n.entries|
    decreases n, k
  {
    if k == 0 then []
    else
      var e := n.entries[k - 1];
      var c := p + [e.name];
      FilesIn(fs, n, p, k - 1) +
        match e
        case File(_) => [c]
        case Directory(_, es) => if fs.isReserved(c) then [] else FilesIn(fs, e, c, |es|)
  }

  lemma {:induction false} FilesInSound(fs: FileSystem, n: Node, p: Path, k: nat)
    requires NodeAt(fs, p) == Some(n) && n.Directory? && k <= |n.entries|
    ensures forall f {:trigger f in FilesIn(fs, n, p, k)} :: f in FilesIn(fs, n, p, k) ==> IsFile(fs, f) && IsPrefix(p, f) && |f| > |p| && NotUnderReserved(fs, p, f)
    decreases n, k
  {
    if k > 0 {
      FilesInSound(fs, n, p, k - 1);
      var e := n.entries[k - 1];
      var c := p + [e.name];
      EntryAt(fs, p, k - 1);
      assert NodeAt(fs, c) == Some(e);
      if e.Directory? && !fs.isReserved(c) {
        var below := FilesIn(fs, e, c, |e.entries|);
        assert FilesIn(fs, n, p, k) == FilesIn(fs, n, p, k - 1) + below;
        FilesInSound(fs, e, c, |e.entries|);
        forall f | f in below
          ensures IsPrefix(p, f) && NotUnderReserved(fs, p, f)
        {
          assert f[..|c|] == c;
          assert f[..|p|] == c[..|p|];
          forall j | |p| < j < |f| ensures !fs.isReserved(f[..j]) {
            if j == |c| {
              assert f[..j] == c;
            }
          }
        }
      }
    }
  }

  /** A path strictly below directory node n (found at p) that exists passes through
      one of the entries of n. */
  lemma EntryOnTheWay(fs: FileSystem, n: Node, p: Path, f: Path)
    requires NodeAt(fs, p) == Some(n) && n.Directory? && PathExists(fs, f) && IsPrefix(p, f) && |f| > |p|
    ensures exists i :: 0 <= i < |n.entries| && n.entries[i].name == f[|p|]
  {
    assert f == p + f[|p|..];
    LookupConcat(fs.root, p, f[|p|..]);
    var e := Child(n.entries, f[|p|..][0]).value;
    var i :| 0 <= i < |n.entries| && n.entries[i] == e;
    assert n.entries[i].name == f[|p|];
  }

  /** Every file below directory node n (found at p), passing through one of its first
      k entries and through no reserved directory, is among the files found there. */
  lemma {:induction false} FilesInComplete(fs: FileSystem, n: Node, p: Path, k: nat, f: Path)
    requires NodeAt(fs, p) == Some(n) && n.Directory? && k <= |n.entries|
    requires IsFile(fs, f) && IsPrefix(p, f) && |f| > |p| && NotUnderReserved(fs, p, f)
    requires exists i :: 0 <= i < k && n.entries[i].name == f[|p|]
    ensures f in FilesIn(fs, n, p, k)
    decreases n, k
  {
    var i :| 0 <= i < k && n.entries[i].name == f[|p|];
    if i < k - 1 {
      FilesInComplete(fs, n, p, k - 1, f);
    } else {
      var e := n.entries[k - 1];
      var c := p + [e.name];
      EntryAt(fs, p, k - 1);
      assert f[..|c|] == c;
      if |f| == |c| {
        assert f == c;
      } else {
        assert f == c + f[|c|..];
        LookupConcat(fs.root, c, f[|c|..]);
        assert !fs.isReserved(f[..|c|]);
        EntryOnTheWay(fs, e, c, f);
        FilesInComplete(fs, e, c, |e.entries|, f);
      }
    }
  }

  /** `getFiles`: the files under `filesDirectory`, not descending into reserved
      subdirectories; nothing when `filesDirectory` is not a directory. */
  function GetFiles(fs: FileSystem, filesDirectory: Path): (r: seq<Path>)
    ensures forall f {:trigger f in r} :: f in r ==> IsFile(fs, f) && IsPrefix(filesDirectory, f) && |f| > |filesDirectory|
    ensures forall f :: f in r ==> NotUnderReserved(fs, filesDirectory, f)
    ensures forall f {:trigger f in r} ::
              IsFile(fs, f) && IsPrefix(filesDirectory, f) && |f| > |filesDirectory| && NotUnderReserved(fs, filesDirectory, f)
              ==> f in r
    ensures !IsDirectory(fs, filesDirectory) ==> r == []
  {
    match NodeAt(fs, filesDirectory)
    case Some(n) =>
      if n.Directory? then
        FilesInSound(fs, n, filesDirectory, |n.entries|);
        FilesBelowAreFound(fs, n, filesDirectory);
        FilesIn(fs, n, filesDirectory, |n.entries|)
      else
        NothingBelowNonDirectory(fs, filesDirectory);
        []
    case None =>
      NothingBelowNonDirectory(fs, filesDirectory);
      []
  }

  /** Nothing exists strictly below a path that is not a directory. */
  lemma NothingBelowNonDirectory(fs: FileSystem, p: Path)
    requires !IsDirectory(fs, p)
    ensures forall f :: IsPrefix(p, f) && |f| > |p| ==> !PathExists(fs, f)
  {
    forall f | IsPrefix(p, f) && |f| > |p| ensures !PathExists(fs, f) {
      assert f == p + f[|p|..];
      LookupConcat(fs.root, p, f[|p|..]);
    }
  }

  /** Every file below directory node n (found at p) and under no reserved directory
      is among the files found there. */
  lemma FilesBelowAreFound(fs: FileSystem, n: Node, p: Path)
    requires NodeAt(fs, p) == Some(n) && n.Directory?
    ensures forall f {:trigger f in FilesIn(fs, n, p, |n.entries|)} ::
              IsFile(fs, f) && IsPrefix(p, f) && |f| > |p| && NotUnderReserved(fs, p, f)
              ==> f in FilesIn(fs, n, p, |n.entries|)
  {
    forall f | IsFile(fs, f) && IsPrefix(p, f) && |f| > |p| && NotUnderReserved(fs, p, f)
      ensures f in FilesIn(fs, n, p, |n.entries|)
    {
      EntryOnTheWay(fs, n, p, f);
      FilesInComplete(fs, n, p, |n.entries|, f);
    }
  }
}
