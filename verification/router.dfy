/** The older exact-key router of src/router.ts: the handler stored under the
    event's `path` is applied to the event, and a miss becomes a `Left` built
    by the caller's error constructor. Handlers are total functions from the
    event to an `Either`; the asynchronous variant is not modelled. */
module Router {
  import opened Fp
  import Table
  import opened Helpers

  type RouterFunction<T, R> = Event -> Either<T, R>

  /** The path as JavaScript renders it in a template literal or uses it as a
      property key: an event without `path` gives the text `undefined`. */
  function PathText(e: Event): string
  {
    match e.path
    case None => "undefined"
    case Some(p) => p
  }

  /** The error text handed to the error constructor on a miss. */
  function NotFoundMessage(path: string): (msg: string)
    ensures |msg| == 24 + |path| && msg[..24] == "No route found for path " && msg[24..] == path
  {
    "No route found for path " + path
  }

  /** `endpoints[path]`: the handler stored under exactly the rendered path;
      no leading-slash normalisation and no wildcards. */
  function RightEndpoint<T, R>(endpoints: Table.Table<RouterFunction<T, R>>, e: Event): (r: Option<RouterFunction<T, R>>)
    ensures r.None? <==> !Table.HasKey(endpoints, PathText(e))
  {
    Table.Lookup(endpoints, PathText(e))
  }

  /** `internalRouter(endpoints, errorConstructor)(event)`. */
  function InternalRouter<T, R>(endpoints: Table.Table<RouterFunction<T, R>>, errorConstructor: string -> T, e: Event): (r: Either<T, R>)
    ensures !Table.HasKey(endpoints, PathText(e)) ==> r == Left(errorConstructor(NotFoundMessage(PathText(e))))
  {
    match RightEndpoint(endpoints, e)
    case Some(handler) => handler(e)
    case None => Left(errorConstructor(NotFoundMessage(PathText(e))))
  }

  /** `router(endpoints, errorConstructor)`: the curried entry point. */
  function Router<T, R>(endpoints: Table.Table<RouterFunction<T, R>>, errorConstructor: string -> T): Event -> Either<T, R>
  {
    e => InternalRouter(endpoints, errorConstructor, e)
  }

  /** A hit applies the handler stored under the event's path to the event and
      returns its result unchanged, whether `Left` or `Right`. */
  lemma RouterHit<T, R>(endpoints: Table.Table<RouterFunction<T, R>>, errorConstructor: string -> T, e: Event, i: int)
    requires Table.DistinctKeys(endpoints)
    requires 0 <= i < |endpoints| && endpoints[i].0 == PathText(e)
    ensures Router(endpoints, errorConstructor)(e) == endpoints[i].1(e)
  {
    Table.LookupEntry(endpoints, i);
  }

  /** A miss yields `Left` of the error constructor applied to
      `No route found for path ` followed by the rendered path. */
  lemma RouterMiss<T, R>(endpoints: Table.Table<RouterFunction<T, R>>, errorConstructor: string -> T, e: Event)
    requires forall i :: 0 <= i < |endpoints| ==> endpoints[i].0 != PathText(e)
    ensures Router(endpoints, errorConstructor)(e) == Left(errorConstructor("No route found for path " + PathText(e)))
  {
  }

  /** An event without a path is reported as `No route found for path undefined`
      unless the table happens to hold the key `undefined`. */
  lemma MissingPathMessage<T, R>(endpoints: Table.Table<RouterFunction<T, R>>, errorConstructor: string -> T, e: Event)
    requires e.path.None?
    requires !Table.HasKey(endpoints, "undefined")
    ensures Router(endpoints, errorConstructor)(e) == Left(errorConstructor("No route found for path undefined"))
  {
    assert "No route found for path " + "undefined" == "No route found for path undefined";
  }

  /** The property access `endpoints[undefined]` reads the key `undefined`: an
      event without a path is routed to a handler registered under that text. */
  lemma MissingPathReadsUndefinedKey<T, R>(h: RouterFunction<T, R>, errorConstructor: string -> T, e: Event)
    requires e.path.None?
    ensures Router([("undefined", h)], errorConstructor)(e) == h(e)
  {
  }

  /** The HTTP method plays no part: two events differing only in `httpMethod`
      (one of them possibly without any) select the same handler. */
  lemma MethodIrrelevant<T, R>(endpoints: Table.Table<RouterFunction<T, R>>, e: Event, m: Option<string>)
    ensures RightEndpoint(endpoints, e.(httpMethod := m)) == RightEndpoint(endpoints, e)
  {
  }

  /** Lookup is exact: a table holding only `/foo` does not answer `foo`. */
  lemma NoSlashNormalisation<T, R>(h: RouterFunction<T, R>, errorConstructor: string -> T)
    ensures Router([("/foo", h)], errorConstructor)(Event(Some("foo"), None, None))
            == Left(errorConstructor("No route found for path foo"))
  {
    assert "/foo" != "foo";
    assert "No route found for path " + "foo" == "No route found for path foo";
  }
}
