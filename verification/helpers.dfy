/** The two API Gateway event shapes and the extraction of a (path, method)
    pair from either of them (src/helpers.ts). Only the fields the routing code
    reads are modelled. A field is `None` when the event does not carry it;
    JavaScript truthiness on these string fields is `Truthy` below, so the
    empty string behaves like an absent field. */
module Helpers {
  import opened Fp

  /** `requestContext.http` of a version-2 event. */
  datatype Http = Http(path: Option<string>, methodName: Option<string>)

  /** `requestContext`; a version-1 context carries no `http` member. */
  datatype RequestContext = RequestContext(http: Option<Http>)

  /** An event of either shape: the flat version-1 fields `path` and
      `httpMethod`, and the nested context. */
  datatype Event = Event(path: Option<string>, httpMethod: Option<string>, requestContext: Option<RequestContext>)

  /** The normalised request the route finder consumes (`method` in the source). */
  datatype PathAndMethod = PathAndMethod(path: string, methodName: string)

  /** JavaScript truthiness of an optional string field: present and non-empty. */
  predicate Truthy(v: Option<string>)
  {
    v.Some? && v.value != ""
  }

  /** `event.requestContext?.http?.path`. */
  function HttpPath(e: Event): Option<string>
  {
    if e.requestContext.Some? && e.requestContext.value.http.Some? then e.requestContext.value.http.value.path
    else None
  }

  /** `event.requestContext?.http?.method`. */
  function HttpMethod(e: Event): Option<string>
  {
    if e.requestContext.Some? && e.requestContext.value.http.Some? then e.requestContext.value.http.value.methodName
    else None
  }

  /** The version-2 discriminator: no truthy top-level `path`, and a truthy
      nested `requestContext.http.path`. */
  predicate IsApiGatewayEventV2(e: Event)
  {
    !Truthy(e.path) && Truthy(HttpPath(e))
  }

  /** `findPathInEvent`: a version-2 event answers with its nested path and
      method, any other event with its flat `path` and `httpMethod`; the
      answer is `None` when either of the two chosen fields is falsy. The
      values are copied verbatim. */
  function FindPathInEvent(e: Event): (r: Option<PathAndMethod>)
    ensures r.Some? ==> r.value.path != "" && r.value.methodName != ""
    ensures r.Some? && IsApiGatewayEventV2(e) ==>
              HttpPath(e) == Some(r.value.path) && HttpMethod(e) == Some(r.value.methodName)
    ensures r.Some? && !IsApiGatewayEventV2(e) ==>
              e.path == Some(r.value.path) && e.httpMethod == Some(r.value.methodName)
  {
    if IsApiGatewayEventV2(e) then
      if Truthy(HttpPath(e)) && Truthy(HttpMethod(e)) then
        Some(PathAndMethod(HttpPath(e).value, HttpMethod(e).value))
      else None
    else if Truthy(e.path) && Truthy(e.httpMethod) then
      Some(PathAndMethod(e.path.value, e.httpMethod.value))
    else None
  }

  /** The discriminator is true exactly when the flat path is absent or empty
      and the nested path is present and non-empty. */
  lemma V2Discrimination(e: Event)
    ensures IsApiGatewayEventV2(e) <==>
              (e.path.None? || e.path.value == "")
              && e.requestContext.Some? && e.requestContext.value.http.Some?
              && e.requestContext.value.http.value.path.Some?
              && e.requestContext.value.http.value.path.value != ""
  {
  }

  /** Which fields a successful extraction returns, as an if-and-only-if: the
      nested pair for a version-2 event, the flat pair otherwise, each only when
      both of its strings are non-empty. */
  lemma FindPathInEventExactly(e: Event, pm: PathAndMethod)
    ensures FindPathInEvent(e) == Some(pm) <==>
              if IsApiGatewayEventV2(e) then
                HttpPath(e) == Some(pm.path) && HttpMethod(e) == Some(pm.methodName) && pm.methodName != ""
              else
                e.path == Some(pm.path) && e.httpMethod == Some(pm.methodName) && pm.path != "" && pm.methodName != ""
  {
  }

  /** A version-2 event whose nested method is falsy yields `None`, whatever
      flat `httpMethod` it carries: there is no fall-back to the version-1 fields. */
  lemma V2WithoutMethodHasNoFallback(e: Event)
    requires IsApiGatewayEventV2(e)
    requires !Truthy(HttpMethod(e))
    ensures FindPathInEvent(e) == None
  {
  }

  /** Once the flat `path` is non-empty, the nested context plays no part:
      replacing it changes nothing. */
  lemma FlatPathMakesContextIrrelevant(e: Event, ctx: Option<RequestContext>)
    requires Truthy(e.path)
    ensures FindPathInEvent(e.(requestContext := ctx)) == FindPathInEvent(e)
    ensures FindPathInEvent(e) == if Truthy(e.httpMethod) then Some(PathAndMethod(e.path.value, e.httpMethod.value)) else None
  {
  }

  /** An event with no truthy path, flat or nested, yields `None`; the empty
      event and the one with an empty `requestContext` are two such events. */
  lemma EmptyEventHasNoPath(e: Event)
    requires !Truthy(e.path) && !Truthy(HttpPath(e))
    ensures FindPathInEvent(e) == None
    ensures FindPathInEvent(Event(None, None, None)) == None
    ensures FindPathInEvent(Event(None, None, Some(RequestContext(None)))) == None
  {
  }

  /** A version-2 event with a nested path and method is answered with those
      two strings; a version-1 event likewise with its flat fields. */
  lemma ShapesAreRead(p: string, m: string)
    requires p != "" && m != ""
    ensures FindPathInEvent(Event(None, None, Some(RequestContext(Some(Http(Some(p), Some(m))))))) == Some(PathAndMethod(p, m))
    ensures FindPathInEvent(Event(Some(p), Some(m), None)) == Some(PathAndMethod(p, m))
  {
  }
}
