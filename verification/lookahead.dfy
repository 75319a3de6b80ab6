/** What the look-ahead `directoryDoesNotContainsItems` answers, stated through the one
    entry that decides it, and three small disks on which that answer picks the item kind.

    The scan returns at the first entry of the listing that is a subdirectory or a
    markdown file; plain files before it are skipped and nothing after it is read. A
    markdown file there answers true, a reserved subdirectory answers true, and any other
    subdirectory hands the question over to its own scan. A listing with no such entry
    answers false. Since true selects a virtual item, three small disks show the kinds:
    a directory holding only a loose file is a file collection; a directory holding a
    loose file and a subdirectory that starts with a document is virtual; a directory
    whose first subdirectory is empty and whose second holds a document is a file
    collection. */
module LookAhead {
  import opened Outcomes
  import opened Disk
  import opened DirectoryHelpers
  import opened FilesystemRepository

  /** An entry at which the scan of `directory` returns. */
  predicate StopsScan(fs: FileSystem, directory: Path, e: Node)
  {
    e.Directory? || IsMarkdownEntry(fs, directory, e)
  }

  /** Position j is the first of the listing, from position i on, at which the scan returns. */
  predicate FirstStop(fs: FileSystem, directory: Path, i: nat, j: nat)
  {
    && i <= j < |ReadDir(fs, directory)|
    && StopsScan(fs, directory, ReadDir(fs, directory)[j])
    && forall m :: i <= m < j ==> !StopsScan(fs, directory, ReadDir(fs, directory)[m])
  }

  /** The scan from position i answers by the first entry it stops at, and false when it
      stops nowhere. */
  lemma {:induction false} ScanEntriesDecidedByFirstStop(fs: FileSystem, directory: Path, i: nat)
    requires i <= |ReadDir(fs, directory)|
    ensures (forall j :: i <= j < |ReadDir(fs, directory)| ==> !StopsScan(fs, directory, ReadDir(fs, directory)[j]))
            ==> !ScanEntries(fs, directory, i)
    ensures forall j: nat :: FirstStop(fs, directory, i, j) ==>
              ScanEntries(fs, directory, i)
              == (|| ReadDir(fs, directory)[j].File?
                  || fs.isReserved(directory + [ReadDir(fs, directory)[j].name])
                  || DirectoryDoesNotContainsItems(fs, directory + [ReadDir(fs, directory)[j].name]))
    decreases |ReadDir(fs, directory)| - i
  {
    if i < |ReadDir(fs, directory)| {
      if StopsScan(fs, directory, ReadDir(fs, directory)[i]) {
        forall j: nat | FirstStop(fs, directory, i, j) ensures j == i {
        }
      } else {
        ScanEntriesDecidedByFirstStop(fs, directory, i + 1);
        forall j: nat | FirstStop(fs, directory, i, j) ensures FirstStop(fs, directory, i + 1, j) {
          assert j != i;
        }
      }
    }
  }

  /** The look-ahead answers false for a directory whose listing holds only files that
      are not markdown files, and so for an empty directory and for a path that is not
      a directory. */
  lemma LookAheadWithoutStops(fs: FileSystem, directory: Path)
    requires forall j :: 0 <= j < |ReadDir(fs, directory)| ==>
               ReadDir(fs, directory)[j].File? && !fs.isMarkdown(directory + [ReadDir(fs, directory)[j].name])
    ensures !DirectoryDoesNotContainsItems(fs, directory)
  {
    ScanEntriesDecidedByFirstStop(fs, directory, 0);
  }

  /** A markdown file listed before any subdirectory makes the look-ahead answer true,
      whatever follows it. */
  lemma LookAheadMarkdownFirst(fs: FileSystem, directory: Path, j: nat)
    requires j < |ReadDir(fs, directory)| && IsMarkdownEntry(fs, directory, ReadDir(fs, directory)[j])
    requires forall m :: 0 <= m < j ==> ReadDir(fs, directory)[m].File?
    ensures DirectoryDoesNotContainsItems(fs, directory)
  {
    FirstMarkdownIndexIsFirst(fs, directory, 0);
    assert FirstMarkdownIndex(fs, directory, 0).Some?;
    assert FirstStop(fs, directory, 0, FirstMarkdownIndex(fs, directory, 0).value);
    ScanEntriesDecidedByFirstStop(fs, directory, 0);
  }

  /** At the first subdirectory listed, with only files that are not markdown files
      before it, the look-ahead answers true when that subdirectory is reserved and
      otherwise answers what the look-ahead of that subdirectory alone answers; the
      entries after it are never read. */
  lemma LookAheadFirstSubdirectory(fs: FileSystem, directory: Path, j: nat)
    requires j < |ReadDir(fs, directory)| && ReadDir(fs, directory)[j].Directory?
    requires forall m :: 0 <= m < j ==> !StopsScan(fs, directory, ReadDir(fs, directory)[m])
    ensures DirectoryDoesNotContainsItems(fs, directory)
            == (fs.isReserved(directory + [ReadDir(fs, directory)[j].name])
                || DirectoryDoesNotContainsItems(fs, directory + [ReadDir(fs, directory)[j].name]))
  {
    assert FirstStop(fs, directory, 0, j);
    ScanEntriesDecidedByFirstStop(fs, directory, 0);
  }

  /** Only files named "doc.md" are markdown files and no directory is reserved. */
  function DocDisk(root: Tree): FileSystem
  {
    FileSystem(root, p => false, p => p != [] && p[|p| - 1] == "doc.md")
  }

  /** /repo/a/doc.md and /repo/b/image.png */
  const LooseFileTree: Tree :=
    Directory("", [Directory("repo", [Directory("a", [File("doc.md")]), Directory("b", [File("image.png")])])])

  /** /repo/b/image.png and /repo/b/sub/doc.md */
  const NestedDocumentTree: Tree :=
    Directory("", [Directory("repo", [Directory("b", [File("image.png"), Directory("sub", [File("doc.md")])])])])

  /** /repo/b/empty/ and /repo/b/sub/doc.md */
  const EmptyFirstTree: Tree :=
    Directory("", [Directory("repo", [Directory("b", [Directory("empty", []), Directory("sub", [File("doc.md")])])])])

  /** On /repo/a/doc.md and /repo/b/image.png, `a` is a file item for its document and
      `b` is a file collection that holds /repo/b/image.png. */
  lemma LooseFileIsFileCollection()
    ensures Classify(DocDisk(LooseFileTree), ["repo", "a"]) == FileItem(["repo", "a", "doc.md"])
    ensures Classify(DocDisk(LooseFileTree), ["repo", "b"]) == FileCollectionItem
    ensures ["repo", "b", "image.png"] in GetFiles(DocDisk(LooseFileTree), ["repo", "b"])
  {
    var fs := DocDisk(LooseFileTree);
    assert ReadDir(fs, ["repo", "a"]) == [File("doc.md")];
    assert ReadDir(fs, ["repo", "b"]) == [File("image.png")];
    assert IsMarkdownEntry(fs, ["repo", "a"], File("doc.md"));
    assert !IsMarkdownEntry(fs, ["repo", "b"], File("image.png"));
    FindMarkdownFileInDirectoryIsFirst(fs, ["repo", "b"]);
    LookAheadWithoutStops(fs, ["repo", "b"]);
    assert IsFile(fs, ["repo", "b", "image.png"]);
    assert NotUnderReserved(fs, ["repo", "b"], ["repo", "b", "image.png"]);
  }

  /** On /repo/b/image.png with /repo/b/sub/doc.md, `b` has no markdown file of its own
      and its first subdirectory starts with a document, so `b` is a virtual item. Other
      disks give other kinds for such a directory: see the next lemma. */
  lemma NestedDocumentIsVirtual()
    ensures Classify(DocDisk(NestedDocumentTree), ["repo", "b"]) == VirtualItem
  {
    var fs := DocDisk(NestedDocumentTree);
    assert ReadDir(fs, ["repo", "b"]) == [File("image.png"), Directory("sub", [File("doc.md")])];
    assert ReadDir(fs, ["repo", "b", "sub"]) == [File("doc.md")];
    assert !IsMarkdownEntry(fs, ["repo", "b"], File("image.png"));
    FindMarkdownFileInDirectoryIsFirst(fs, ["repo", "b"]);
    assert IsDirectory(fs, ["repo", "b"]) && !fs.isReserved(["repo", "b", "sub"]);
    LookAheadFirstSubdirectory(fs, ["repo", "b"], 1);
    assert ["repo", "b"] + [ReadDir(fs, ["repo", "b"])[1].name] == ["repo", "b", "sub"];
    LookAheadMarkdownFirst(fs, ["repo", "b", "sub"], 0);
  }

  /** On /repo/b/empty/ with /repo/b/sub/doc.md, only the first subdirectory `empty` is
      looked into and it holds nothing, so `b` is a file collection although `sub` holds
      a document. Had `empty` been reserved, `b` would be virtual; had `b` held a
      markdown file of its own, it would be a file item. */
  lemma EmptyFirstSubdirectoryIsFileCollection()
    ensures Classify(DocDisk(EmptyFirstTree), ["repo", "b"]) == FileCollectionItem
  {
    var fs := DocDisk(EmptyFirstTree);
    assert ReadDir(fs, ["repo", "b"]) == [Directory("empty", []), Directory("sub", [File("doc.md")])];
    assert ReadDir(fs, ["repo", "b", "empty"]) == [];
    FindMarkdownFileInDirectoryIsFirst(fs, ["repo", "b"]);
    assert IsDirectory(fs, ["repo", "b"]) && !fs.isReserved(["repo", "b", "empty"]);
    LookAheadFirstSubdirectory(fs, ["repo", "b"], 0);
    assert ["repo", "b"] + [ReadDir(fs, ["repo", "b"])[0].name] == ["repo", "b", "empty"];
    LookAheadWithoutStops(fs, ["repo", "b", "empty"]);
  }
}
