/** The request logic the servlet's and the filter's `doGet` share: path
    normalisation, lookup with fallback to the index document, and the strong
    `If-None-Match` check that picks 304 or 200. */
module Spa {
  import opened Wrappers
  import opened Manifest

  newtype byte = b: int | 0 <= b < 256
  type Bytes = seq<byte>

  /** The two headers set on every served response. */
  datatype Headers = Headers(contentType: string, eTag: string)

  /** Why a request ends in an exception instead of a status. */
  datatype RequestError =
    | ResourceNotFound(filePath: string)  // the byte source has nothing at resourceRoot + path
    | NoResource                          // the fallback entry is missing, so `resource` is null
    | UnexpectedPath(path: string)        // the filter's guard that the URI starts with the mount path

  /** What the servlet or filter does with one request. */
  datatype Response =
    | PassToChain                          // the filter hands the request to the rest of the chain
    | NotModified(headers: Headers)        // status 304, no body
    | Ok(headers: Headers, body: Bytes)    // status 200, the resource's bytes copied out
    | Failed(error: RequestError)          // an exception escapes; nothing was set on the response

  /** The key that `""` and `"/"` map to; fixed in the code, whatever the configured
      index document is. */
  const IndexKey: string := "index.html"

  /** Strip at most one leading `/`, then map `""` and `"/"` to `IndexKey`. */
  function NormaliseKey(path: string): (key: string)
    ensures key != "" && key != "/"
    ensures key == IndexKey || key == path || [ '/' ] + key == path
    ensures key == IndexKey <==> path in {"", "/", "//", IndexKey, "/" + IndexKey}
    ensures key != IndexKey ==> if |path| > 0 && path[0] == '/' then [ '/' ] + key == path else key == path
  {
    var stripped := if |path| > 0 && path[0] == '/' then path[1..] else path;
    assert path == "/" + IndexKey ==> stripped == IndexKey;
    assert path == "//" ==> stripped == "/";
    assert path != "" && path[0] == '/' ==> path == [ '/' ] + stripped;
    assert stripped == "" ==> path == "" || path == "/";
    assert stripped == "/" ==> path == "/" || path == "//";
    assert stripped == IndexKey ==> path == IndexKey || path == "/" + IndexKey;
    if stripped == "" || stripped == "/" then IndexKey else stripped
  }

  /** A leading slash in front of a path that has none changes nothing. */
  lemma LeadingSlashIrrelevant(p: string)
    requires |p| == 0 || p[0] != '/'
    ensures NormaliseKey("/" + p) == NormaliseKey(p)
  {
    assert ("/" + p)[1..] == p;
  }

  /** A path without a leading slash is its own key unless it is empty. */
  lemma PlainPathIsItsKey(p: string)
    requires p != "" && p[0] != '/'
    ensures NormaliseKey(p) == p
  {
  }

  /** Every key is stored under its own path. */
  predicate WellKeyed(resources: map<string, StaticResource>) {
    forall k :: k in resources ==> resources[k].path == k
  }

  /** `Optional.ofNullable(resources.get(key)).orElseGet(() -> resources.get(index))`:
      the resource registered for `key`, else the one registered for the index
      document, else null. */
  function Lookup(resources: map<string, StaticResource>, index: string, key: string): (r: Option<StaticResource>)
    requires WellKeyed(resources)
    ensures r.None? <==> key !in resources && index !in resources
    ensures r.Some? ==> r.value.path in resources && resources[r.value.path] == r.value
    ensures r.Some? ==> (r.value.path == key <==> key in resources)
    ensures r.Some? && r.value.path != key ==> r.value.path == index
  {
    if key in resources then Some(resources[key])
    else if index in resources then Some(resources[index])
    else None
  }

  /** Open the resource's bytes, then set Content-Type and ETag and answer 304 when
      `If-None-Match` is exactly the ETag, 200 with the bytes otherwise. Missing bytes
      fail before any header is set, even when the answer would have been 304. */
  function Serve(resource: StaticResource, resourceRoot: string, ifNoneMatch: Option<string>,
                 fetch: string -> Option<Bytes>): (r: Response)
    ensures !r.PassToChain?
    ensures r.Failed? <==> fetch(resourceRoot + resource.path).None?
    ensures r.Failed? ==> r.error == ResourceNotFound(resourceRoot + resource.path)
    ensures !r.Failed? ==> r.headers == Headers(resource.contentType, resource.eTag)
    ensures r.NotModified? <==> !r.Failed? && ifNoneMatch == Some(resource.eTag)
    ensures r.Ok? ==> r.body == fetch(resourceRoot + resource.path).value
  {
    var filePath := resourceRoot + resource.path;
    match fetch(filePath)
    case None => Failed(ResourceNotFound(filePath))
    case Some(bytes) =>
      var headers := Headers(resource.contentType, resource.eTag);
      if ifNoneMatch == Some(resource.eTag) then NotModified(headers) else Ok(headers, bytes)
  }

  /** The comparison is exact: a weak validator `W/"…"` or the wildcard `*` that
      section 13.1.2 of RFC 9110 would accept still gets the full body. */
  lemma OnlyExactTagMatches(resource: StaticResource, resourceRoot: string, fetch: string -> Option<Bytes>)
    requires fetch(resourceRoot + resource.path).Some?
    requires resource.eTag != "*"
    ensures Serve(resource, resourceRoot, Some("*"), fetch).Ok?
    ensures Serve(resource, resourceRoot, Some("W/" + resource.eTag), fetch).Ok?
    ensures Serve(resource, resourceRoot, None, fetch).Ok?
    ensures Serve(resource, resourceRoot, Some(resource.eTag), fetch).NotModified?
  {
    assert |"W/" + resource.eTag| != |resource.eTag|;
  }
}
