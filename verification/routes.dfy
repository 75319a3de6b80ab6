/** Item routes: the location of an item relative to the repository root.

    The route package itself is not part of this model; its two constructors are given
    the behaviour the indexer relies on: a route is the sequence of segments below the
    repository root, and construction fails when the path is not under that root. */
module Routes {
  import opened Outcomes
  import opened Disk

  datatype Route = Route(segments: seq<Name>)

  datatype RouteError = NotUnderRoot(root: Path, path: Path)

  /** `route.NewFromItemDirectory` */
  function NewFromItemDirectory(root: Path, directory: Path): (r: Result<Route, RouteError>)
    ensures r.Success? <==> IsPrefix(root, directory)
    ensures r.Success? ==> root + r.value.segments == directory
    ensures r.Failure? ==> r.error == NotUnderRoot(root, directory)
  {
    if IsPrefix(root, directory) then
      assert root + directory[|root|..] == directory;
      Success(Route(directory[|root|..]))
    else Failure(NotUnderRoot(root, directory))
  }

  /** `route.NewFromItemPath`: the route of an item file is that of its directory. */
  function NewFromItemPath(root: Path, file: Path): (r: Result<Route, RouteError>)
    ensures r.Success? <==> IsPrefix(root, Parent(file))
    ensures r.Success? ==> root + r.value.segments == Parent(file)
  {
    NewFromItemDirectory(root, Parent(file))
  }
}
