/** What the walk of `indexItems` publishes, stated without reference to how it walks.

    From an existing directory that is not reserved, the walk publishes one event per
    directory that can be reached from it without passing through a reserved directory,
    and no other. The events come in the lexicographic order of the directories' paths,
    which puts a directory before everything below it and keeps each subtree together.
    Walking from the root of a repository, every event carries an item whose route is
    the directory's path below the root. */
module WalkProperties {
  import opened Outcomes
  import opened Disk
  import opened DataAccess
  import opened DirectoryHelpers
  import opened FilesystemRepository

  /** A directory at or below `top` with no reserved directory from `top` down to it. */
  predicate Reachable(fs: FileSystem, top: Path, d: Path)
  {
    IsDirectory(fs, d) && IsPrefix(top, d) && forall k :: |top| <= k <= |d| ==> !fs.isReserved(d[..k])
  }

  /** Lexicographic order of paths: a proper prefix comes first; otherwise the first
      segment in which they differ decides. */
  predicate PathBefore(p: Path, q: Path)
  {
    if p == [] then q != []
    else if q == [] then false
    else NameBefore(p[0], q[0]) || (p[0] == q[0] && PathBefore(p[1..], q[1..]))
  }

  predicate PathSorted(s: seq<Path>)
  {
    forall i, j :: 0 <= i < j < |s| ==> PathBefore(s[i], s[j])
  }

  /** The directories visited from `d`, in the order the walk visits them: `d`, then
      the directories visited from each of its child directories in turn. */
  function Visits(fs: FileSystem, d: Path): seq<Path>
    decreases Height(fs.root) - |d|, 1
  {
    if !IsDirectory(fs, d) || fs.isReserved(d) then []
    else
      ExistingPathDepth(fs, d);
      [d] + VisitsBelow(fs, d, |GetChildDirectories(fs, d)|)
  }

  /** The directories visited from the first k child directories of `d`. */
  function VisitsBelow(fs: FileSystem, d: Path, k: nat): seq<Path>
    requires k <= |GetChildDirectories(fs, d)|
    decreases Height(fs.root) - |d| - 1, 2, k
  {
    if k == 0 then []
    else
      var children := GetChildDirectories(fs, d);
      assert children[k - 1] in children;
      VisitsBelow(fs, d, k - 1) + Visits(fs, children[k - 1])
  }

  /** The event of each of the given paths, in order. */
  function Events(event: Path -> RepositoryEvent, ps: seq<Path>): seq<RepositoryEvent>
  {
    if ps == [] then [] else [event(ps[0])] + Events(event, ps[1..])
  }

  /** One event per path, each the event of the path at the same position. */
  lemma {:induction false} EventsAt(event: Path -> RepositoryEvent, ps: seq<Path>)
    ensures |Events(event, ps)| == |ps|
    ensures forall i :: 0 <= i < |ps| ==> Events(event, ps)[i] == event(ps[i])
    decreases |ps|
  {
    if ps != [] {
      EventsAt(event, ps[1..]);
      forall i | 1 <= i < |ps| ensures Events(event, ps)[i] == event(ps[i]) {
        assert ps[1..][i - 1] == ps[i];
      }
    }
  }

  lemma {:induction false} EventsAppend(event: Path -> RepositoryEvent, a: seq<Path>, b: seq<Path>)
    ensures Events(event, a + b) == Events(event, a) + Events(event, b)
    decreases |a|
  {
    if a == [] {
      assert a + b == b;
    } else {
      assert (a + b)[0] == a[0] && (a + b)[1..] == a[1..] + b;
      EventsAppend(event, a[1..], b);
      AppendAssociative([event(a[0])], Events(event, a[1..]), Events(event, b));
    }
  }

  /** A child directory the walk descends into is one level down, exists, is not
      reserved and is no deeper than the tree. */
  lemma ChildDirectoryAt(fs: FileSystem, d: Path, i: nat)
    requires i < |GetChildDirectories(fs, d)|
    ensures |GetChildDirectories(fs, d)[i]| == |d| + 1
    ensures IsDirectory(fs, GetChildDirectories(fs, d)[i]) && !fs.isReserved(GetChildDirectories(fs, d)[i])
    ensures |GetChildDirectories(fs, d)[i]| <= Height(fs.root)
  {
    assert GetChildDirectories(fs, d)[i] in GetChildDirectories(fs, d);
    ExistingPathDepth(fs, GetChildDirectories(fs, d)[i]);
  }

  /** The walk from a directory that is not reserved publishes the events of the
      visited directories, in visiting order. */
  lemma {:induction false} WalkIsVisits(fs: FileSystem, event: Path -> RepositoryEvent, d: Path)
    requires IsDirectory(fs, d) && !fs.isReserved(d)
    ensures WalkWith(fs, event, d) == Events(event, Visits(fs, d))
    decreases Height(fs.root) - |d|, 1
  {
    ExistingPathDepth(fs, d);
    ChildDirectoriesAreChildren(fs, d);
    WalkChildrenIsVisitsBelow(fs, event, d, |GetChildDirectories(fs, d)|);
    EventsAppend(event, [d], VisitsBelow(fs, d, |GetChildDirectories(fs, d)|));
  }

  lemma {:induction false} WalkChildrenIsVisitsBelow(fs: FileSystem, event: Path -> RepositoryEvent, d: Path, k: nat)
    requires AreChildDirectories(fs, d, GetChildDirectories(fs, d))
    requires k <= |GetChildDirectories(fs, d)|
    ensures WalkChildren(fs, event, d, GetChildDirectories(fs, d), k)
            == Events(event, VisitsBelow(fs, d, k))
    decreases Height(fs.root) - |d| - 1, 2, k
  {
    if k > 0 {
      ChildDirectoryAt(fs, d, k - 1);
      WalkChildrenIsVisitsBelow(fs, event, d, k - 1);
      WalkIsVisits(fs, event, GetChildDirectories(fs, d)[k - 1]);
      WalkChildrenIsVisitsBelowStep(fs, event, d, k);
    }
  }

  /** The step of the induction: one more child directory on both sides. */
  lemma WalkChildrenIsVisitsBelowStep(fs: FileSystem, event: Path -> RepositoryEvent, d: Path, k: nat)
    requires AreChildDirectories(fs, d, GetChildDirectories(fs, d))
    requires 0 < k <= |GetChildDirectories(fs, d)|
    requires WalkChildren(fs, event, d, GetChildDirectories(fs, d), k - 1)
             == Events(event, VisitsBelow(fs, d, k - 1))
    requires WalkWith(fs, event, GetChildDirectories(fs, d)[k - 1])
             == Events(event, Visits(fs, GetChildDirectories(fs, d)[k - 1]))
    ensures WalkChildren(fs, event, d, GetChildDirectories(fs, d), k)
            == Events(event, VisitsBelow(fs, d, k))
  {
    WalkChildrenStep(fs, event, d, GetChildDirectories(fs, d), k - 1);
    EventsAppend(event, VisitsBelow(fs, d, k - 1), Visits(fs, GetChildDirectories(fs, d)[k - 1]));
    EqualAppends(WalkChildren(fs, event, d, GetChildDirectories(fs, d), k),
                 WalkChildren(fs, event, d, GetChildDirectories(fs, d), k - 1),
                 WalkWith(fs, event, GetChildDirectories(fs, d)[k - 1]),
                 Events(event, VisitsBelow(fs, d, k)),
                 Events(event, VisitsBelow(fs, d, k - 1)),
                 Events(event, Visits(fs, GetChildDirectories(fs, d)[k - 1])));
  }

  /** Two concatenations of equal parts are equal. */
  lemma EqualAppends<T>(s: seq<T>, a: seq<T>, b: seq<T>, t: seq<T>, c: seq<T>, e: seq<T>)
    requires s == a + b && t == c + e && a == c && b == e
    ensures s == t
  {
  }

  /** Below a directory, every prefix of its path is a directory. */
  lemma PrefixOfDirectory(fs: FileSystem, p: Path, k: nat)
    requires IsDirectory(fs, p) && k <= |p|
    ensures IsDirectory(fs, p[..k])
  {
    if k < |p| {
      assert p[..k] + p[k..] == p;
      LookupConcat(fs.root, p[..k], p[k..]);
    } else {
      assert p[..k] == p;
    }
  }

  /** A directory is reachable from itself when it is not reserved. */
  lemma ReachableFromItself(fs: FileSystem, d: Path)
    requires IsDirectory(fs, d) && !fs.isReserved(d)
    ensures Reachable(fs, d, d)
  {
    assert d[..|d|] == d;
  }

  /** Reaching a directory strictly below `d` is reaching it from one of the child
      directories of `d` the walk descends into. */
  lemma ReachableThroughChild(fs: FileSystem, d: Path, x: Path)
    requires IsDirectory(fs, d) && !fs.isReserved(d) && x != d
    ensures Reachable(fs, d, x)
            <==> |x| > |d| && x[..|d| + 1] in GetChildDirectories(fs, d) && Reachable(fs, x[..|d| + 1], x)
  {
    if Reachable(fs, d, x) {
      var c := x[..|d| + 1];
      PrefixOfDirectory(fs, x, |d| + 1);
      assert c[..|d|] == x[..|d|];
      assert Parent(c) == d;
      assert !fs.isReserved(c);
      assert c in GetChildDirectories(fs, d);
      assert x[..|c|] == c;
      assert Reachable(fs, c, x);
    }
    if |x| > |d| && x[..|d| + 1] in GetChildDirectories(fs, d) && Reachable(fs, x[..|d| + 1], x) {
      var c := x[..|d| + 1];
      assert x[..|d|] == c[..|d|] == Parent(c) == d;
      forall k | |d| <= k <= |x| ensures !fs.isReserved(x[..k]) {
        if k == |d| {
          assert x[..k] == d;
        } else {
          assert |c| <= k;
        }
      }
    }
  }

  /** The visited directories are exactly the reachable ones. */
  lemma {:induction false} VisitsAreReachable(fs: FileSystem, d: Path, x: Path)
    requires IsDirectory(fs, d) && !fs.isReserved(d)
    ensures x in Visits(fs, d) <==> Reachable(fs, d, x)
    decreases Height(fs.root) - |d|, 1
  {
    ExistingPathDepth(fs, d);
    VisitsBelowMembers(fs, d, |GetChildDirectories(fs, d)|, x);
    assert GetChildDirectories(fs, d)[..|GetChildDirectories(fs, d)|] == GetChildDirectories(fs, d);
    if x == d {
      ReachableFromItself(fs, d);
    } else {
      ReachableThroughChild(fs, d, x);
    }
  }

  lemma {:induction false} VisitsBelowMembers(fs: FileSystem, d: Path, k: nat, x: Path)
    requires k <= |GetChildDirectories(fs, d)|
    ensures x in VisitsBelow(fs, d, k)
            <==> |x| > |d| && x[..|d| + 1] in GetChildDirectories(fs, d)[..k] && Reachable(fs, x[..|d| + 1], x)
    decreases Height(fs.root) - |d| - 1, 2, k
  {
    if k == 0 {
      assert GetChildDirectories(fs, d)[..0] == [];
    } else {
      ChildDirectoryAt(fs, d, k - 1);
      VisitsBelowMembers(fs, d, k - 1, x);
      VisitsAreReachable(fs, GetChildDirectories(fs, d)[k - 1], x);
      VisitsBelowMembersStep(fs, d, k, x);
    }
  }

  /** The step of the induction: the directories visited from one more child directory. */
  lemma VisitsBelowMembersStep(fs: FileSystem, d: Path, k: nat, x: Path)
    requires 0 < k <= |GetChildDirectories(fs, d)|
    requires x in VisitsBelow(fs, d, k - 1)
             <==> |x| > |d| && x[..|d| + 1] in GetChildDirectories(fs, d)[..k - 1] && Reachable(fs, x[..|d| + 1], x)
    requires x in Visits(fs, GetChildDirectories(fs, d)[k - 1])
             <==> Reachable(fs, GetChildDirectories(fs, d)[k - 1], x)
    ensures x in VisitsBelow(fs, d, k)
            <==> |x| > |d| && x[..|d| + 1] in GetChildDirectories(fs, d)[..k] && Reachable(fs, x[..|d| + 1], x)
  {
    var children := GetChildDirectories(fs, d);
    var c := children[k - 1];
    assert c in children;
    assert children[..k] == children[..k - 1] + [c];
    if Reachable(fs, c, x) {
      assert x[..|d| + 1] == c;
    }
  }

  lemma {:induction false} PathBeforeIrreflexive(p: Path)
    ensures !PathBefore(p, p)
    decreases |p|
  {
    if p != [] {
      NameBeforeIrreflexive(p[0]);
      PathBeforeIrreflexive(p[1..]);
    }
  }

  /** A proper prefix comes first. */
  lemma {:induction false} PathBeforePrefix(p: Path, q: Path)
    requires |p| < |q| && q[..|p|] == p
    ensures PathBefore(p, q)
    decreases |p|
  {
    if p != [] {
      assert q[0] == p[0];
      assert q[1..][..|p| - 1] == p[1..];
      PathBeforePrefix(p[1..], q[1..]);
    }
  }

  /** No two paths come before each other. */
  lemma {:induction false} PathBeforeAsymmetric(p: Path, q: Path)
    requires PathBefore(p, q)
    ensures !PathBefore(q, p)
    decreases |p|
  {
    if p != [] && q != [] {
      NameBeforeIrreflexive(p[0]);
      if NameBefore(p[0], q[0]) {
        NameBeforeAsymmetric(p[0], q[0]);
      } else {
        PathBeforeAsymmetric(p[1..], q[1..]);
      }
    }
  }

  /** Paths that agree on their first m segments are ordered by their next one. */
  lemma {:induction false} PathBeforeAt(p: Path, q: Path, m: nat)
    requires m < |p| && m < |q| && p[..m] == q[..m] && NameBefore(p[m], q[m])
    ensures PathBefore(p, q)
    decreases m
  {
    if m > 0 {
      assert p[0] == p[..m][0] == q[..m][0] == q[0];
      assert p[1..][..m - 1] == p[..m][1..] == q[..m][1..] == q[1..][..m - 1];
      PathBeforeAt(p[1..], q[1..], m - 1);
    }
  }

  lemma PathSortedAppend(a: seq<Path>, b: seq<Path>)
    requires PathSorted(a) && PathSorted(b)
    requires forall x, y :: x in a && y in b ==> PathBefore(x, y)
    ensures PathSorted(a + b)
  {
    var s := a + b;
    forall i, j | 0 <= i < j < |s| ensures PathBefore(s[i], s[j]) {
      if j < |a| {
        assert s[i] == a[i] && s[j] == a[j];
      } else if i >= |a| {
        assert s[i] == b[i - |a|] && s[j] == b[j - |a|];
      } else {
        assert s[i] == a[i] && s[j] == b[j - |a|];
        assert a[i] in a && b[j - |a|] in b;
      }
    }
  }

  /** The walk visits the directories in lexicographic order of their paths. */
  lemma {:induction false} VisitsSorted(fs: FileSystem, d: Path)
    requires IsDirectory(fs, d) && !fs.isReserved(d)
    ensures PathSorted(Visits(fs, d))
    decreases Height(fs.root) - |d|, 1
  {
    ExistingPathDepth(fs, d);
    var children := GetChildDirectories(fs, d);
    var below := VisitsBelow(fs, d, |children|);
    VisitsBelowSorted(fs, d, |children|);
    forall y | y in below ensures PathBefore(d, y) {
      VisitsBelowMembers(fs, d, |children|, y);
      var c := y[..|d| + 1];
      assert children[..|children|] == children;
      assert y[..|d|] == c[..|d|] == Parent(c) == d;
      PathBeforePrefix(d, y);
    }
    PathSortedAppend([d], below);
  }

  /** A directory is visited before every directory below it. */
  lemma AncestorFirst(fs: FileSystem, d: Path, i: nat, j: nat)
    requires IsDirectory(fs, d) && !fs.isReserved(d)
    requires i < |Visits(fs, d)| && j < |Visits(fs, d)|
    requires |Visits(fs, d)[i]| < |Visits(fs, d)[j]| && Visits(fs, d)[j][..|Visits(fs, d)[i]|] == Visits(fs, d)[i]
    ensures i < j
  {
    VisitsSorted(fs, d);
    PathBeforePrefix(Visits(fs, d)[i], Visits(fs, d)[j]);
    if j < i {
      PathBeforeAsymmetric(Visits(fs, d)[i], Visits(fs, d)[j]);
    }
  }

  lemma {:induction false} VisitsBelowSorted(fs: FileSystem, d: Path, k: nat)
    requires k <= |GetChildDirectories(fs, d)|
    ensures PathSorted(VisitsBelow(fs, d, k))
    decreases Height(fs.root) - |d| - 1, 2, k
  {
    if k > 0 {
      ChildDirectoryAt(fs, d, k - 1);
      VisitsBelowSorted(fs, d, k - 1);
      VisitsSorted(fs, GetChildDirectories(fs, d)[k - 1]);
      forall x, y | x in VisitsBelow(fs, d, k - 1) && y in Visits(fs, GetChildDirectories(fs, d)[k - 1])
        ensures PathBefore(x, y)
      {
        EarlierChildFirst(fs, d, k, x, y);
      }
      PathSortedAppend(VisitsBelow(fs, d, k - 1), Visits(fs, GetChildDirectories(fs, d)[k - 1]));
    }
  }

  /** What is visited from an earlier child directory comes before what is visited
      from a later one. */
  lemma EarlierChildFirst(fs: FileSystem, d: Path, k: nat, x: Path, y: Path)
    requires 0 < k <= |GetChildDirectories(fs, d)|
    requires x in VisitsBelow(fs, d, k - 1) && y in Visits(fs, GetChildDirectories(fs, d)[k - 1])
    ensures PathBefore(x, y)
  {
    assert GetChildDirectories(fs, d)[k - 1] in GetChildDirectories(fs, d);
    VisitsBelowMembers(fs, d, k - 1, x);
    VisitsAreReachable(fs, GetChildDirectories(fs, d)[k - 1], y);
    var i :| 0 <= i < k - 1 && GetChildDirectories(fs, d)[..k - 1][i] == x[..|d| + 1];
    assert GetChildDirectories(fs, d)[i] in GetChildDirectories(fs, d);
    GetChildDirectoriesSorted(fs, d);
    SiblingsOrdered(d, GetChildDirectories(fs, d)[i], GetChildDirectories(fs, d)[k - 1], x, y);
  }

  /** Below two sibling directories, everything below the one with the earlier name
      comes first. */
  lemma SiblingsOrdered(d: Path, a: Path, c: Path, x: Path, y: Path)
    requires |a| == |d| + 1 && Parent(a) == d && |c| == |d| + 1 && Parent(c) == d
    requires NameBefore(Base(a), Base(c))
    requires |x| > |d| && x[..|d| + 1] == a && IsPrefix(c, y)
    ensures PathBefore(x, y)
  {
    assert x[..|d|] == a[..|d|] == d == c[..|d|] == y[..|d|];
    assert x[|d|] == a[|d|] && y[|d|] == c[|d|];
    PathBeforeAt(x, y, |d|);
  }

  /** Each reachable directory is visited exactly once. */
  lemma VisitsDistinct(fs: FileSystem, d: Path)
    requires IsDirectory(fs, d) && !fs.isReserved(d)
    ensures forall i, j :: 0 <= i < j < |Visits(fs, d)| ==> Visits(fs, d)[i] != Visits(fs, d)[j]
  {
    var s := Visits(fs, d);
    VisitsSorted(fs, d);
    forall i, j | 0 <= i < j < |s| ensures s[i] != s[j] {
      PathBeforeIrreflexive(s[i]);
    }
  }

  /** The item event of a directory under the repository root carries an item, routed
      at the directory's path below the root. */
  lemma IndexEventOfDirectoryUnderRoot(fs: FileSystem, root: Path, d: Path)
    requires IsDirectory(fs, d) && IsPrefix(root, d)
    ensures IndexEvent(fs, root, d).item.Some? && IndexEvent(fs, root, d).error.None?
    ensures root + IndexEvent(fs, root, d).item.value.route.segments == d
  {
    assert ItemDirectory(fs, d) == d;
    match Classify(fs, d)
    case FileItem(markdownFile) =>
      assert FindMarkdownFileInDirectory(fs, d) == Some(markdownFile);
    case VirtualItem =>
    case FileCollectionItem =>
  }

  /** Walking a repository from its root: one event per reachable directory, each
      carrying an item routed at that directory, in lexicographic order, and no errors. */
  lemma RepositoryWalk(fs: FileSystem, stringHash: string -> Option<string>, directory: Path)
    requires NewRepository(fs, stringHash, directory).Success?
    ensures var root := NewRepository(fs, stringHash, directory).value.Path();
            var events := Walk(fs, root, root);
            var visits := Visits(fs, root);
            && |events| == |visits|
            && (forall i :: 0 <= i < |events| ==>
                  events[i].item.Some? && events[i].error.None?
                  && root + events[i].item.value.route.segments == visits[i])
            && (forall x :: x in visits <==> Reachable(fs, root, x))
            && PathSorted(visits)
  {
    var root := NewRepository(fs, stringHash, directory).value.Path();
    var visits := Visits(fs, root);
    WalkIsVisits(fs, Indexer(fs, root), root);
    EventsAt(Indexer(fs, root), visits);
    forall i | 0 <= i < |visits|
      ensures IndexEvent(fs, root, visits[i]).item.Some? && IndexEvent(fs, root, visits[i]).error.None?
      ensures root + IndexEvent(fs, root, visits[i]).item.value.route.segments == visits[i]
    {
      VisitsAreReachable(fs, root, visits[i]);
      IndexEventOfDirectoryUnderRoot(fs, root, visits[i]);
    }
    forall x ensures x in visits <==> Reachable(fs, root, x) {
      VisitsAreReachable(fs, root, x);
    }
    VisitsSorted(fs, root);
  }

  /** A path that does not exist, or is reserved, gets exactly one event: an error, with
      no item, and nothing below it is walked. */
  lemma WalkRefused(fs: FileSystem, repositoryPath: Path, itemPath: Path)
    requires !PathExists(fs, itemPath) || fs.isReserved(itemPath)
    ensures |Walk(fs, repositoryPath, itemPath)| == 1
    ensures Walk(fs, repositoryPath, itemPath)[0].item.None?
    ensures Walk(fs, repositoryPath, itemPath)[0].error
            == Some(if !PathExists(fs, itemPath) then PathDoesNotExist(itemPath) else ReservedItemPath(itemPath))
  {
  }
}
