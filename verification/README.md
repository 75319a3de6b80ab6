# The filesystem repository of allmark, modelled in Dafny

allmark serves a directory of markdown documents as a web site. Its filesystem
repository (`dataaccess/filesystem/repository.go`) turns the directory tree under a
root into a stream of item events, one per directory. This project models that
repository on an in-memory disk:

- `NewRepository` validates the root. It falls back to the parent of a file, refuses a
  path that does not exist or is reserved, and takes the id from the hash of the
  lower-cased directory name.
- `indexItems` walks the tree in pre-order, children in listing order. For each
  directory it publishes one event carrying a file item, a virtual item or a
  file-collection item.
  - A file item is built when the directory holds a markdown file.
  - Otherwise the look-ahead `directoryDoesNotContainsItems` chooses: true gives a
    virtual item, false a file collection.
- `Items` runs the walk from the root and then closes the stream. `Changed` hands out
  a stream on which nothing is ever sent.

Files:

- `disk.dfy` (module `Disk`): the disk. A tree of files and directories whose entries
  are sorted by name, as `ioutil.ReadDir` returns them. It also carries the
  predicates `isReservedDirectory` and `isMarkdownFile`, and paths as sequences of
  segments.
- `routes.dfy`, `dataaccess.dfy`: routes, items, events, and the event stream. The Go
  channel is a class holding the sequence of events sent and a closed flag.
- `helpers.dfy` (module `DirectoryHelpers`): the directory helpers the indexer calls.
- `repository.dfy` (module `FilesystemRepository`): the repository itself.
  - `IndexItems` and `IndexChildItems` are the imperative walk. They are proved to
    append exactly the events of the function `Walk`.
- `walk_properties.dfy` (module `WalkProperties`): what `Walk` publishes, stated
  independently of how it walks. There is one event per directory reachable without
  passing a reserved directory, in lexicographic path order, with no repeats. When the
  walk starts at the repository root, each event carries an item routed at its
  directory.
- `lookahead.dfy` (module `LookAhead`): the look-ahead, characterised by the one entry
  that decides it. Three small disks show which item kind it selects.

## Model

| member | source | states |
|---|---|---|
| DataAccess.NewEvent | dataaccess/filesystem/repository.go:113 | the event carries the item exactly when the constructor succeeded, and the error exactly when it failed |
| DataAccess.EventStream.constructor | dataaccess/filesystem/repository.go:58 | a new stream holds no events and is open |
| DataAccess.EventStream.Send | dataaccess/filesystem/repository.go:113 | sending appends exactly that event and leaves the stream open |
| DataAccess.EventStream.Close | dataaccess/filesystem/repository.go:66 | closing marks the stream closed and keeps its events |
| Routes.NewFromItemDirectory | dataaccess/filesystem/repository.go:164 | succeeds exactly when the directory lies under the root; the root followed by the route is the directory; otherwise it fails with not-under-root |
| Routes.NewFromItemPath | dataaccess/filesystem/repository.go:142 | the route of a markdown file is the route of its parent directory, and exists exactly when that directory lies under the root |
| FilesystemRepository.NewRepository | dataaccess/filesystem/repository.go:25-54 | succeeds exactly when the path exists, its directory is not reserved and the hash of the lower-cased base name exists. A missing path gives the does-not-exist error. The root is the path itself for a directory and its parent for a file, always an existing non-reserved directory. `Id` is the hash of the root's lower-cased base name |
| FilesystemRepository.RepositoryIdFollowsName | dataaccess/filesystem/repository.go:42-53 | two repositories whose roots have the same lower-cased base name get the same id |
| FilesystemRepository.ToLower | dataaccess/filesystem/repository.go:43 | the result has the same length, and each character is the lower-cased character at the same position |
| FilesystemRepository.ItemDirectoryOfExistingPath | dataaccess/filesystem/repository.go:102-106 | the item directory of an existing path is a directory, and for a file it is the file's parent |
| FilesystemRepository.Repository.Items | dataaccess/filesystem/repository.go:56-70 | the returned stream is closed and holds exactly the events of the walk from the root, in order |
| FilesystemRepository.Repository.Changed | dataaccess/filesystem/repository.go:72-77 | the returned stream holds no event and is not closed |
| FilesystemRepository.NewItemFromFile | dataaccess/filesystem/repository.go:140-156 | succeeds exactly when the file's directory lies under the root. The item is routed at that directory and its content is read from the file. Its files are those of the files subdirectory of the item directory. A failure names the file and the route error |
| FilesystemRepository.NewVirtualItem | dataaccess/filesystem/repository.go:158-178 | succeeds exactly when the item directory lies under the root. The item is routed at it, its content is the text "# " followed by the directory name, and its files are those of its files subdirectory. A failure names the directory |
| FilesystemRepository.NewFileCollectionItem | dataaccess/filesystem/repository.go:180-200 | as for a virtual item, except that its files are all files under the item directory itself |
| FilesystemRepository.IndexEventFollowsKind | dataaccess/filesystem/repository.go:108-131 | an event carries an item or an error, never both, and the only error is a route that cannot be built. The kind is a file item exactly when a markdown file is found, and virtual exactly when none is found and the look-ahead answers true. Route, content and files directory follow the kind |
| FilesystemRepository.Classify | dataaccess/filesystem/repository.go:109-129 | a file item names an existing markdown file lying directly in the item directory |
| FilesystemRepository.IndexEvent | dataaccess/filesystem/repository.go:108-131 | an event carries an item or an error, never both, and its only error is a route that cannot be built; `IndexEventFollowsKind` gives the item for each kind |
| FilesystemRepository.DirectoryDoesNotContainsItems | dataaccess/filesystem/repository.go:202-222 | true only for a directory whose listing is not empty; `LookAhead.ScanEntriesDecidedByFirstStop` gives the answer for every listing |
| FilesystemRepository.ScanEntries | dataaccess/filesystem/repository.go:204-219 | the scan from a position answers true only when an entry is left at or after it |
| FilesystemRepository.WalkWith | dataaccess/filesystem/repository.go:88-138 | the walk publishes at least one event, and for an existing, non-reserved item path the first is that path's own event |
| FilesystemRepository.Walk | dataaccess/filesystem/repository.go:88-138 | the walk with the indexer's events: at least one event, the item path's own event first. `WalkProperties.WalkIsVisits`, `RepositoryWalk` and `WalkRefused` state all it publishes |
| FilesystemRepository.IndexItems | dataaccess/filesystem/repository.go:88-138 | the stream stays open and gains exactly the events of the walk from the item path, after those it already held |
| FilesystemRepository.IndexChildItems | dataaccess/filesystem/repository.go:134-137 | the loop appends the walks of the child directories one after the other, in their listed order |
| DirectoryHelpers.FirstMarkdownIndexIsFirst | dataaccess/filesystem/repository.go:109 | the position found holds a markdown file and none comes before it; none is found only when there is none |
| DirectoryHelpers.FindMarkdownFileInDirectory | dataaccess/filesystem/repository.go:109 | a file found is an existing markdown file directly inside the directory |
| DirectoryHelpers.FindMarkdownFileInDirectoryIsFirst | dataaccess/filesystem/repository.go:109 | the file found comes first by name among the markdown files of the directory, and none is found exactly when the directory lists no markdown file |
| DirectoryHelpers.GetChildDirectories | dataaccess/filesystem/repository.go:134 | the child directories are exactly the existing, non-reserved directories one level below |
| DirectoryHelpers.GetChildDirectoriesSorted | dataaccess/filesystem/repository.go:134-135 | the child directories come sorted by name |
| DirectoryHelpers.GetFiles | dataaccess/filesystem/repository.go:151-152 | the files listed are exactly the existing files strictly below the files directory that do not lie under a reserved directory; a files directory that does not exist lists nothing |
| DirectoryHelpers.FilesInComplete | dataaccess/filesystem/repository.go:151-152 | every file below an entry among the first k of a directory, not under a reserved directory, is collected from those entries |
| LookAhead.ScanEntriesDecidedByFirstStop | dataaccess/filesystem/repository.go:202-222 | the scan answers by the first entry that is a subdirectory or a markdown file. A markdown file gives true. A subdirectory gives true when reserved and otherwise its own look-ahead's answer. With no such entry the answer is false |
| LookAhead.LookAheadWithoutStops | dataaccess/filesystem/repository.go:203-204 | a directory listing only files that are not markdown files, an empty directory and a missing path all give false |
| LookAhead.LookAheadMarkdownFirst | dataaccess/filesystem/repository.go:214-215 | a markdown file listed before any subdirectory gives true, whatever follows |
| LookAhead.LookAheadFirstSubdirectory | dataaccess/filesystem/repository.go:208-213 | at the first subdirectory the answer is true if it is reserved and otherwise that subdirectory's own answer; later entries are never read |
| LookAhead.LooseFileIsFileCollection | dataaccess/filesystem/repository.go:109-129 | on /repo/a/doc.md with /repo/b/image.png, `a` is a file item for its document and `b` a file collection whose files include /repo/b/image.png |
| LookAhead.NestedDocumentIsVirtual | dataaccess/filesystem/repository.go:117-121 | on /repo/b/image.png with /repo/b/sub/doc.md, `b` is a virtual item |
| LookAhead.EmptyFirstSubdirectoryIsFileCollection | dataaccess/filesystem/repository.go:208-213 | on /repo/b/empty/ with /repo/b/sub/doc.md, `b` is a file collection: only the empty first subdirectory is looked into |
| WalkProperties.WalkIsVisits | dataaccess/filesystem/repository.go:88-138 | the walk from a non-reserved directory publishes the events of the visited directories in visiting order: the directory first, then each child's visits in listing order |
| WalkProperties.WalkChildrenIsVisitsBelow | dataaccess/filesystem/repository.go:134-137 | the walks of the first k child directories publish the events of their visits, one subtree after the other |
| WalkProperties.EventsAt | dataaccess/filesystem/repository.go:113 | there is one event per visited path, and each is the event of the path at the same position |
| WalkProperties.VisitsAreReachable | dataaccess/filesystem/repository.go:91-100 | a directory is visited exactly when it is reachable without passing a reserved directory |
| WalkProperties.VisitsBelowMembers | dataaccess/filesystem/repository.go:134-137 | what is visited below the first k children is exactly what is reachable through one of them |
| WalkProperties.VisitsSorted | dataaccess/filesystem/repository.go:108-137 | visits come in lexicographic path order: a directory before everything below it, siblings by name |
| WalkProperties.PathBeforeAsymmetric | dataaccess/filesystem/repository.go:108-137 | the order of paths the walk follows never puts two paths each before the other |
| WalkProperties.AncestorFirst | dataaccess/filesystem/repository.go:108-137 | a directory's position in the visits comes before the position of every directory below it |
| WalkProperties.VisitsBelowSorted | dataaccess/filesystem/repository.go:134-137 | the visits below the first k children are in lexicographic path order |
| WalkProperties.EarlierChildFirst | dataaccess/filesystem/repository.go:134-137 | everything visited from an earlier child comes before everything visited from a later one |
| WalkProperties.VisitsDistinct | dataaccess/filesystem/repository.go:134-137 | no directory is visited twice |
| WalkProperties.IndexEventOfDirectoryUnderRoot | dataaccess/filesystem/repository.go:108-131 | the event of a directory under the root carries an item and no error, routed at the directory's path below the root |
| WalkProperties.RepositoryWalk | dataaccess/filesystem/repository.go:56-70 | walking from the root of a built repository gives one event per reachable directory, in lexicographic order. Each event carries an item routed at its directory, and there are no errors |
| WalkProperties.WalkRefused | dataaccess/filesystem/repository.go:90-100 | a missing or reserved item path gives exactly one event, an error with no item, and nothing below it is walked |

## Behaviour worth noting

- **Which kind the look-ahead selects.** The look-ahead answers true when it meets a
  markdown file or a reserved directory (lines 209-210 and 214-215), and true selects
  the virtual item (lines 117-121). So a directory `b` holding only `image.png` is a
  file collection (`LookAhead.LooseFileIsFileCollection`). Adding `b/sub/doc.md` makes
  `b` virtual (`LookAhead.NestedDocumentIsVirtual`).
- **How far the look-ahead looks.** The scan returns from inside its loop at the first
  subdirectory (lines 208-213), so only that one is followed. When `b` has no markdown
  file of its own and its first subdirectory is empty and not reserved, `b` is a file
  collection even when a later subdirectory holds a document
  (`LookAhead.EmptyFirstSubdirectoryIsFileCollection`). A reserved first subdirectory
  makes `b` virtual instead (lines 209-210), and a markdown file in `b` itself makes it
  a file item (line 109).
- **`Changed`.** It returns a stream on which nothing is sent and which is never closed
  (lines 72-77).

## Left out

- Real filesystem I/O (`fsutil.PathExists`, `fsutil.IsDirectory`, `ioutil.ReadDir`) is
  replaced by a tree value. The errors these calls return are ignored, as the indexer
  ignores them: a path that is not a directory lists nothing.
- The goroutine and channel of `Items` are not modelled as concurrency. The walk runs to
  completion before the stream is closed, and blocking and back-pressure are left out.
- The logger is dropped; it only receives messages.
- Error messages are error values naming the path and cause, not formatted strings.
- Paths are sequences of segments of a clean absolute path. `filepath.Dir`, `Base` and
  `Join` are written on segments.
- `getStringHash` is not part of this model. It is a parameter: any function from a name
  to an optional hash.
- `isReservedDirectory` and `isMarkdownFile` are not part of this model. They are
  arbitrary predicates on paths, carried by the disk.
- `findMarkdownFileInDirectory`, `getChildDirectories` and `getFiles` are not part of
  this model. They get the behaviour the indexer relies on:
  - the first markdown file listed;
  - the non-reserved subdirectories in listing order;
  - the files below a directory, not descending into reserved directories.
- `getFiles` also receives the repository path and the item directory. The model
  ignores both and lists the files under the files directory alone.
- The `route` package is not part of this model. A route is the list of segments below
  the root, and building one fails exactly when the path is not under the root.
- Content providers and `dataaccess.NewItem` are not part of this model. Content is
  recorded as which provider is used with which arguments; no file is read.
- `dataaccess.NewItem` (lines 155, 177 and 199) is taken never to fail. Its error result
  is not modelled, so a route that cannot be built is the only error an item event can
  carry (`FilesystemRepository.IndexEvent`), and the walk from the root of a built
  repository carries no error (`WalkProperties.RepositoryWalk`).
- FilesystemRepository.ToLower: lowers ASCII letters only. Unicode case mapping is left
  out, since strings are sequences of characters with no case tables available.
- FilesystemRepository.Repository.Id and FilesystemRepository.Repository.Path are plain
  getters with no contract of their own. What they return is stated by
  `NewRepository`'s contract.
