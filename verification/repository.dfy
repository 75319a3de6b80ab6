/** The filesystem repository: a directory tree turned into a stream of item events.

    Every directory reached by the walk yields one event: a file item when it holds a
    markdown file, otherwise a virtual item or a file-collection item, chosen by a
    look-ahead into the directory's entries. The walk then descends into the child
    directories in listing order. */
module FilesystemRepository {
  import opened Outcomes
  import opened Disk
  import opened Routes
  import opened DataAccess
  import opened DirectoryHelpers

  /** `config.FilesDirectoryName`: the conventional subdirectory holding an item's files. */
  const FilesDirectoryName: Name := "files"

  /** A repository: the hash that identifies it and its root directory. */
  datatype Repository = Repository(hash: string, directory: Disk.Path) {

    function Id(): string
    {
      hash
    }

    function Path(): Disk.Path
    {
      directory
    }

    /** Starts the walk at the root and closes the stream once the walk has returned;
        the walk runs to completion before the stream is closed, so the closed stream
        holds exactly the events of the walk, in order. */
    method Items(fs: FileSystem) returns (itemEvents: EventStream)
      ensures fresh(itemEvents)
      ensures itemEvents.closed && itemEvents.events == Walk(fs, directory, directory)
    {
      itemEvents := new EventStream();
      IndexItems(fs, Path(), Path(), itemEvents);
      itemEvents.Close();
    }

    /** A stream on which nothing is ever sent and which is never closed. */
    method Changed() returns (itemEvents: EventStream)
      ensures fresh(itemEvents)
      ensures itemEvents.events == [] && !itemEvents.closed
    {
      itemEvents := new EventStream();
    }
  }

  /** `unicode.ToLower` restricted to ASCII letters. */
  function LowerChar(c: char): char
  {
    if 'A' <= c <= 'Z' then (c as int + 32) as char else c
  }

  /** `strings.ToLower` restricted to ASCII letters: each character lowered on its own. */
  function ToLower(s: string): (r: string)
    ensures |r| == |s|
    ensures forall i :: 0 <= i < |s| ==> r[i] == LowerChar(s[i])
  {
    if s == [] then [] else [LowerChar(s[0])] + ToLower(s[1..])
  }

  /** Two repositories built with the same hash function whose root names differ at
      most in the case of ASCII letters get the same id. */
  lemma RepositoryIdFollowsName(fs1: FileSystem, fs2: FileSystem, stringHash: string -> Option<string>, d1: Disk.Path, d2: Disk.Path)
    requires NewRepository(fs1, stringHash, d1).Success? && NewRepository(fs2, stringHash, d2).Success?
    requires ToLower(Base(NewRepository(fs1, stringHash, d1).value.Path()))
             == ToLower(Base(NewRepository(fs2, stringHash, d2).value.Path()))
    ensures NewRepository(fs1, stringHash, d1).value.Id() == NewRepository(fs2, stringHash, d2).value.Id()
  {
  }

  /** The directory an item path stands for: the path itself, or the parent of a file. */
  function ItemDirectory(fs: FileSystem, p: Disk.Path): Disk.Path
  {
    if IsDirectory(fs, p) then p else Parent(p)
  }

  lemma ItemDirectoryOfExistingPath(fs: FileSystem, p: Disk.Path)
    requires PathExists(fs, p)
    ensures IsDirectory(fs, ItemDirectory(fs, p))
    ensures IsFile(fs, p) ==> ItemDirectory(fs, p) == Parent(p)
    ensures |ItemDirectory(fs, p)| <= Height(fs.root)
  {
    ExistingPathDepth(fs, p);
    if !IsDirectory(fs, p) {
      ParentOfFile(fs, p);
    }
  }

  /** `NewRepository`: validates the root path, falls back to the parent of a file,
      refuses a reserved root and identifies the repository by the hash of its
      lower-cased directory name. */
  function NewRepository(fs: FileSystem, stringHash: string -> Option<string>, directory: Disk.Path): (r: Result<Repository, Error>)
    ensures r.Success? <==> && PathExists(fs, directory)
                            && !fs.isReserved(ItemDirectory(fs, directory))
                            && stringHash(ToLower(Base(ItemDirectory(fs, directory)))).Some?
    ensures !PathExists(fs, directory) ==> r == Failure(PathDoesNotExist(directory))
    ensures r.Success? ==> IsDirectory(fs, r.value.Path()) && !fs.isReserved(r.value.Path())
    ensures r.Success? && IsDirectory(fs, directory) ==> r.value.Path() == directory
    ensures r.Success? && IsFile(fs, directory) ==> r.value.Path() == Parent(directory)
    ensures r.Success? ==> stringHash(ToLower(Base(r.value.Path()))) == Some(r.value.Id())
  {
    if !PathExists(fs, directory) then Failure(PathDoesNotExist(directory))
    else
      var root := ItemDirectory(fs, directory);
      ItemDirectoryOfExistingPath(fs, directory);
      if fs.isReserved(root) then Failure(ReservedRoot(root))
      else
        var name := ToLower(Base(root));
        match stringHash(name)
        case None => Failure(HashFailure(name))
        case Some(hash) => Success(Repository(hash, root))
  }

  /** `newItemFromFile`: an item backed by its markdown file, with the files of the
      conventional files subdirectory. */
  function NewItemFromFile(fs: FileSystem, repositoryPath: Disk.Path, itemDirectory: Disk.Path, filePath: Disk.Path): (r: Result<Item, Error>)
    ensures r.Success? <==> IsPrefix(repositoryPath, Parent(filePath))
    ensures r.Success? ==> repositoryPath + r.value.route.segments == Parent(filePath)
    ensures r.Success? ==> r.value.content == FileContentProvider(filePath, r.value.route)
    ensures r.Success? ==> r.value.files == GetFiles(fs, itemDirectory + [FilesDirectoryName])
    ensures r.Failure? ==> r.error == ItemRouteFailure(filePath, NotUnderRoot(repositoryPath, Parent(filePath)))
  {
    match NewFromItemPath(repositoryPath, filePath)
    case Failure(e) => Failure(ItemRouteFailure(filePath, e))
    case Success(route) =>
      Success(Item(route, FileContentProvider(filePath, route), GetFiles(fs, itemDirectory + [FilesDirectoryName])))
  }

  /** `newVirtualItem`: an item whose content is a heading made of the directory name,
      with the files of the conventional files subdirectory. */
  function NewVirtualItem(fs: FileSystem, repositoryPath: Disk.Path, itemDirectory: Disk.Path): (r: Result<Item, Error>)
    ensures r.Success? <==> IsPrefix(repositoryPath, itemDirectory)
    ensures r.Success? ==> repositoryPath + r.value.route.segments == itemDirectory
    ensures r.Success? ==> r.value.content == TextContentProvider("# " + Base(itemDirectory), r.value.route)
    ensures r.Success? ==> r.value.files == GetFiles(fs, itemDirectory + [FilesDirectoryName])
    ensures r.Failure? ==> r.error == ItemRouteFailure(itemDirectory, NotUnderRoot(repositoryPath, itemDirectory))
  {
    var title := Base(itemDirectory);
    var content := "# " + title;
    match NewFromItemDirectory(repositoryPath, itemDirectory)
    case Failure(e) => Failure(ItemRouteFailure(itemDirectory, e))
    case Success(route) =>
      Success(Item(route, TextContentProvider(content, route), GetFiles(fs, itemDirectory + [FilesDirectoryName])))
  }

  /** `newFileCollectionItem`: like a virtual item, but its files are all the files
      under the item directory itself. */
  function NewFileCollectionItem(fs: FileSystem, repositoryPath: Disk.Path, itemDirectory: Disk.Path): (r: Result<Item, Error>)
    ensures r.Success? <==> IsPrefix(repositoryPath, itemDirectory)
    ensures r.Success? ==> repositoryPath + r.value.route.segments == itemDirectory
    ensures r.Success? ==> r.value.content == TextContentProvider("# " + Base(itemDirectory), r.value.route)
    ensures r.Success? ==> r.value.files == GetFiles(fs, itemDirectory)
    ensures r.Failure? ==> r.error == ItemRouteFailure(itemDirectory, NotUnderRoot(repositoryPath, itemDirectory))
  {
    var title := Base(itemDirectory);
    var content := "# " + title;
    match NewFromItemDirectory(repositoryPath, itemDirectory)
    case Failure(e) => Failure(ItemRouteFailure(itemDirectory, e))
    case Success(route) =>
      Success(Item(route, TextContentProvider(content, route), GetFiles(fs, itemDirectory)))
  }

  /** `directoryDoesNotContainsItems`: scans the entries of `directory` in listing order.
      A markdown file met before any subdirectory answers true; the first subdirectory
      answers true when it is reserved and otherwise decides by its own scan; a listing
      with neither answers false. */
  function DirectoryDoesNotContainsItems(fs: FileSystem, directory: Disk.Path): (r: bool)
    ensures r ==> IsDirectory(fs, directory) && ReadDir(fs, directory) != []
    decreases Height(fs.root) - |directory|, 1
  {
    ScanEntries(fs, directory, 0)
  }

  /** The loop of `directoryDoesNotContainsItems` from position i of the listing on. */
  function ScanEntries(fs: FileSystem, directory: Disk.Path, i: nat): (r: bool)
    requires i <= |ReadDir(fs, directory)|
    ensures r ==> i < |ReadDir(fs, directory)|
    decreases Height(fs.root) - |directory|, 0, |ReadDir(fs, directory)| - i
  {
    if i == |ReadDir(fs, directory)| then false
    else
      var entry := ReadDir(fs, directory)[i];
      var childDirectory := directory + [entry.name];
      if entry.Directory? then
        if fs.isReserved(childDirectory) then true
        else
          ListedDirectoryDepth(fs, directory);
          DirectoryDoesNotContainsItems(fs, childDirectory)
      else if fs.isMarkdown(childDirectory) then true
      else ScanEntries(fs, directory, i + 1)
  }

  /** The three ways the indexer builds an item for a directory. */
  datatype ItemKind = FileItem(markdownFile: Disk.Path) | VirtualItem | FileCollectionItem

  /** The choice the indexer makes for an item path: its markdown file if it has one,
      otherwise the look-ahead on the item directory picks virtual (true) or file
      collection (false). */
  function Classify(fs: FileSystem, itemPath: Disk.Path): (r: ItemKind)
    ensures r.FileItem? ==> IsFile(fs, r.markdownFile) && fs.isMarkdown(r.markdownFile) && Parent(r.markdownFile) == itemPath
  {
    match FindMarkdownFileInDirectory(fs, itemPath)
    case Some(markdownFile) => FileItem(markdownFile)
    case None =>
      if DirectoryDoesNotContainsItems(fs, ItemDirectory(fs, itemPath)) then VirtualItem else FileCollectionItem
  }

  /** The one event the indexer publishes for an existing, non-reserved item path. */
  function IndexEvent(fs: FileSystem, repositoryPath: Disk.Path, itemPath: Disk.Path): (e: RepositoryEvent)
    ensures e.item.Some? <==> e.error.None?
    ensures e.error.Some? ==> e.error.value.ItemRouteFailure?
  {
    var itemDirectory := ItemDirectory(fs, itemPath);
    NewEvent(
      match Classify(fs, itemPath)
      case FileItem(markdownFile) => NewItemFromFile(fs, repositoryPath, itemDirectory, markdownFile)
      case VirtualItem => NewVirtualItem(fs, repositoryPath, itemDirectory)
      case FileCollectionItem => NewFileCollectionItem(fs, repositoryPath, itemDirectory))
  }

  /** The event for an item path carries an item or an error, never both, and the only
      error is a route that cannot be built. The item is a
      file item exactly when a markdown file is found, a virtual item exactly when none
      is found and the look-ahead answers true, and a file collection otherwise. A file
      item is routed at the item path and reads its markdown file; the other two are
      routed at the item directory and show a heading of its name. A file collection
      takes its files from the item directory itself, the other two from its files
      subdirectory. */
  lemma IndexEventFollowsKind(fs: FileSystem, repositoryPath: Disk.Path, itemPath: Disk.Path)
    ensures var e := IndexEvent(fs, repositoryPath, itemPath);
            var kind := Classify(fs, itemPath);
            var itemDirectory := ItemDirectory(fs, itemPath);
            && (e.item.Some? <==> e.error.None?)
            && (e.error.Some? ==> e.error.value.ItemRouteFailure?)
            && (kind.FileItem? <==> FindMarkdownFileInDirectory(fs, itemPath).Some?)
            && (kind.VirtualItem? <==> FindMarkdownFileInDirectory(fs, itemPath).None? && DirectoryDoesNotContainsItems(fs, itemDirectory))
            && (e.item.Some? ==>
                  e.item.value.files == GetFiles(fs, if kind.FileCollectionItem? then itemDirectory else itemDirectory + [FilesDirectoryName]))
            && (e.item.Some? && kind.FileItem? ==>
                  && repositoryPath + e.item.value.route.segments == itemPath
                  && e.item.value.content == FileContentProvider(kind.markdownFile, e.item.value.route))
            && (e.item.Some? && !kind.FileItem? ==>
                  && repositoryPath + e.item.value.route.segments == itemDirectory
                  && e.item.value.content == TextContentProvider("# " + Base(itemDirectory), e.item.value.route))
  {
  }

  /** What `indexItems` publishes for an existing, non-reserved item path of the
      repository rooted at `repositoryPath`. */
  function Indexer(fs: FileSystem, repositoryPath: Disk.Path): Disk.Path -> RepositoryEvent
  {
    p => IndexEvent(fs, repositoryPath, p)
  }

  /** The events `indexItems` publishes for `itemPath`, in order. */
  function Walk(fs: FileSystem, repositoryPath: Disk.Path, itemPath: Disk.Path): (r: seq<RepositoryEvent>)
    ensures r != []
    ensures PathExists(fs, itemPath) && !fs.isReserved(itemPath) ==> r[0] == IndexEvent(fs, repositoryPath, itemPath)
  {
    WalkWith(fs, Indexer(fs, repositoryPath), itemPath)
  }

  /** The walk of `indexItems`, given the event it publishes for each existing,
      non-reserved item path: that event, then the walks of the child directories of
      the item directory in listing order. A path that does not exist or is reserved
      gets one error event and nothing below it is walked. */
  function WalkWith(fs: FileSystem, event: Disk.Path -> RepositoryEvent, itemPath: Disk.Path): (r: seq<RepositoryEvent>)
    ensures r != []
    ensures PathExists(fs, itemPath) && !fs.isReserved(itemPath) ==> r[0] == event(itemPath)
    decreases Height(fs.root) - |ItemDirectory(fs, itemPath)|, 1
  {
    if !PathExists(fs, itemPath) then
      [RepositoryEvent(None, Some(PathDoesNotExist(itemPath)))]
    else if fs.isReserved(itemPath) then
      [RepositoryEvent(None, Some(ReservedItemPath(itemPath)))]
    else
      var itemDirectory := ItemDirectory(fs, itemPath);
      ItemDirectoryOfExistingPath(fs, itemPath);
      var children := GetChildDirectories(fs, itemDirectory);
      [event(itemPath)] + WalkChildren(fs, event, itemDirectory, children, |children|)
  }

  /** The child directories of `directory` that the walk descends into. */
  predicate AreChildDirectories(fs: FileSystem, directory: Disk.Path, children: seq<Disk.Path>)
  {
    forall c {:trigger c in children} :: c in children ==> |c| == |directory| + 1 && IsDirectory(fs, c)
  }

  /** The child directories of a directory are directories one level below it. */
  lemma ChildDirectoriesAreChildren(fs: FileSystem, directory: Disk.Path)
    ensures AreChildDirectories(fs, directory, GetChildDirectories(fs, directory))
  {
  }

  /** The events of walking the first k of the given child directories of `directory`,
      one after the other. */
  function WalkChildren(fs: FileSystem, event: Disk.Path -> RepositoryEvent, directory: Disk.Path, children: seq<Disk.Path>, k: nat): seq<RepositoryEvent>
    requires AreChildDirectories(fs, directory, children) && k <= |children|
    decreases Height(fs.root) - |directory| - 1, 2, k
  {
    if k == 0 then []
    else
      assert children[k - 1] in children;
      WalkChildren(fs, event, directory, children, k - 1) + WalkWith(fs, event, children[k - 1])
  }

  /** Walking one more child directory appends that child's walk. */
  lemma WalkChildrenStep(fs: FileSystem, event: Disk.Path -> RepositoryEvent, directory: Disk.Path, children: seq<Disk.Path>, k: nat)
    requires AreChildDirectories(fs, directory, children) && k < |children|
    ensures WalkChildren(fs, event, directory, children, k + 1)
            == WalkChildren(fs, event, directory, children, k) + WalkWith(fs, event, children[k])
  {
  }

  /** The walk from an existing, non-reserved item path: its event, then its children. */
  lemma WalkUnfold(fs: FileSystem, repositoryPath: Disk.Path, itemPath: Disk.Path)
    requires PathExists(fs, itemPath) && !fs.isReserved(itemPath)
    ensures var itemDirectory := ItemDirectory(fs, itemPath);
            var children := GetChildDirectories(fs, itemDirectory);
            Walk(fs, repositoryPath, itemPath)
            == [IndexEvent(fs, repositoryPath, itemPath)] + WalkChildren(fs, Indexer(fs, repositoryPath), itemDirectory, children, |children|)
  {
  }

  /** Concatenation of sequences is associative. */
  lemma AppendAssociative<T>(a: seq<T>, b: seq<T>, c: seq<T>)
    ensures (a + b) + c == a + (b + c)
  {
  }

  /** `indexItems`: publishes the events for `itemPath` and, recursively, for its child
      directories on the stream. */
  method IndexItems(fs: FileSystem, repositoryPath: Disk.Path, itemPath: Disk.Path, itemEvents: EventStream)
    requires !itemEvents.closed
    modifies itemEvents
    ensures !itemEvents.closed
    ensures itemEvents.events == old(itemEvents.events) + Walk(fs, repositoryPath, itemPath)
    decreases Height(fs.root) - |ItemDirectory(fs, itemPath)|, 1
  {
    // abort if the path does not exist
    if !PathExists(fs, itemPath) {
      itemEvents.Send(RepositoryEvent(None, Some(PathDoesNotExist(itemPath))));
      return;
    }

    // abort if the path is reserved
    if fs.isReserved(itemPath) {
      itemEvents.Send(RepositoryEvent(None, Some(ReservedItemPath(itemPath))));
      return;
    }

    // the item directory is the path itself, or the parent of a file
    var itemDirectory := itemPath;
    if !IsDirectory(fs, itemPath) {
      itemDirectory := Parent(itemPath);
    }
    ItemDirectoryOfExistingPath(fs, itemPath);

    assert itemDirectory == ItemDirectory(fs, itemPath);

    // search for a markdown file in the item path
    var markdownFile := FindMarkdownFileInDirectory(fs, itemPath);
    var item;
    if markdownFile.Some? {
      // create an item from the markdown file
      item := NewItemFromFile(fs, repositoryPath, itemDirectory, markdownFile.value);
    } else if DirectoryDoesNotContainsItems(fs, itemDirectory) {
      // create a virtual item
      item := NewVirtualItem(fs, repositoryPath, itemDirectory);
    } else {
      // create a file collection item
      item := NewFileCollectionItem(fs, repositoryPath, itemDirectory);
    }
    var event := NewEvent(item);
    assert event == IndexEvent(fs, repositoryPath, itemPath);
    itemEvents.Send(event);
    WalkUnfold(fs, repositoryPath, itemPath);

    var childItemDirectories := GetChildDirectories(fs, itemDirectory);
    ChildDirectoriesAreChildren(fs, itemDirectory);
    IndexChildItems(fs, repositoryPath, itemDirectory, childItemDirectories, itemEvents);
    AppendAssociative(old(itemEvents.events), [event], WalkChildren(fs, Indexer(fs, repositoryPath), itemDirectory, childItemDirectories, |childItemDirectories|));
  }

  /** The loop of `indexItems` over the child item directories: walks each of them in turn. */
  method IndexChildItems(fs: FileSystem, repositoryPath: Disk.Path, directory: Disk.Path, children: seq<Disk.Path>, itemEvents: EventStream)
    requires !itemEvents.closed
    requires AreChildDirectories(fs, directory, children)
    modifies itemEvents
    ensures !itemEvents.closed
    ensures itemEvents.events == old(itemEvents.events) + WalkChildren(fs, Indexer(fs, repositoryPath), directory, children, |children|)
    decreases Height(fs.root) - |directory| - 1, 2
  {
    ghost var start := itemEvents.events;
    for i := 0 to |children|
      invariant !itemEvents.closed
      invariant itemEvents.events == start + WalkChildren(fs, Indexer(fs, repositoryPath), directory, children, i)
    {
      var childItemDirectory := children[i];
      assert childItemDirectory in children;
      ExistingPathDepth(fs, childItemDirectory);
      ghost var walked := WalkChildren(fs, Indexer(fs, repositoryPath), directory, children, i);
      IndexItems(fs, repositoryPath, childItemDirectory, itemEvents);
      ghost var child := Walk(fs, repositoryPath, childItemDirectory);
      WalkChildrenStep(fs, Indexer(fs, repositoryPath), directory, children, i);
      AppendAssociative(start, walked, child);
    }
  }
}
