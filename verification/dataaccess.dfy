/** The data-access types the indexer produces: items, their content providers, the
    events published for them, and the stream the events are published on. */
module DataAccess {
  import opened Outcomes
  import opened Disk
  import opened Routes

  /** The content of an item: read lazily from its markdown file, or a fixed text. */
  datatype ContentProvider =
    | FileContentProvider(path: Path, route: Route)
    | TextContentProvider(text: string, route: Route)

  /** An item: its route, its content and the paths of its associated files. */
  datatype Item = Item(route: Route, content: ContentProvider, files: seq<Path>)

  datatype Error =
    | PathDoesNotExist(path: Path)
    | ReservedRoot(path: Path)
    | ReservedItemPath(path: Path)
    | HashFailure(name: Name)
    | ItemRouteFailure(path: Path, cause: RouteError)

  /** An event on the item stream: an item, or the error that prevented one. */
  datatype RepositoryEvent = RepositoryEvent(item: Option<Item>, error: Option<Error>)

  /** `dataaccess.NewEvent` applied to the (item, error) pair an item constructor returns. */
  function NewEvent(r: Result<Item, Error>): (e: RepositoryEvent)
    ensures e.item.Some? <==> r.Success?
    ensures e.error.Some? <==> r.Failure?
    ensures r.Success? ==> e.item.value == r.value
    ensures r.Failure? ==> e.error.value == r.error
  {
    match r
    case Success(item) => RepositoryEvent(Some(item), None)
    case Failure(err) => RepositoryEvent(None, Some(err))
  }

  /** A Go channel of events, seen as the sequence of events sent on it and whether
      it has been closed. Sending on, or closing, a closed channel panics in Go. */
  class EventStream {
    var events: seq<RepositoryEvent>
    var closed: bool

    /** `make(chan *dataaccess.RepositoryEvent, 1)` */
    constructor ()
      ensures events == [] && !closed
    {
      events := [];
      closed := false;
    }

    /** `itemEvents <- event` */
    method Send(event: RepositoryEvent)
      requires !closed
      modifies this
      ensures events == old(events) + [event] && !closed
    {
      events := events + [event];
    }

    /** `close(itemEvents)` */
    method Close()
      requires !closed
      modifies this
      ensures closed && events == old(events)
    {
      closed := true;
    }
  }
}
