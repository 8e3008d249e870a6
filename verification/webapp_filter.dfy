/** The multi-app filter: load every discovered descriptor, sort the mounts, and for
    each request either hand it to the chain or serve it from the matching mount. */
module WebappFilter {
  import opened Wrappers
  import opened Manifest
  import opened Spa
  import opened Webapps
  import opened WebappCollection

  /** The filter's only state: the mounts in routing order. */
  datatype Filter = Filter(webapps: seq<Webapp>)

  /** `loadWebapps`: parse the descriptors in discovery order; the first failure aborts. */
  function LoadWebapps(descriptors: seq<map<string, string>>, classpath: string -> Option<seq<string>>)
    : (r: Result<seq<Webapp>, LoadError>)
    ensures r.Success? <==> forall i :: 0 <= i < |descriptors| ==> Parse(descriptors[i], classpath).Success?
    ensures r.Success? ==> |r.value| == |descriptors|
                           && forall i :: 0 <= i < |descriptors| ==> Parse(descriptors[i], classpath) == Success(r.value[i])
    ensures r.Failure? ==> exists i :: 0 <= i < |descriptors| && Parse(descriptors[i], classpath) == Failure(r.error)
                                       && forall j :: 0 <= j < i ==> Parse(descriptors[j], classpath).Success?
  {
    if |descriptors| == 0 then Success([])
    else
      match Parse(descriptors[0], classpath)
      case Failure(e) => Failure(e)
      case Success(w) =>
        var tail := descriptors[1..];
        assert forall i :: 0 < i < |descriptors| ==> descriptors[i] == tail[i - 1];
        match LoadWebapps(tail, classpath)
        case Failure(e) =>
          FirstFailureCons(d => Parse(d, classpath), descriptors, e);
          Failure(e)
        case Success(ws) =>
          assert forall i :: 0 < i < |descriptors| ==> ([w] + ws)[i] == ws[i - 1];
          Success([w] + ws)
  }

  /** When the head succeeds, the first failure of the tail is the first failure of
      the whole sequence, one position further on. */
  lemma FirstFailureCons<T, U, E>(f: T -> Result<U, E>, xs: seq<T>, e: E)
    requires |xs| > 0 && f(xs[0]).Success?
    requires exists i :: 0 <= i < |xs| - 1 && f(xs[1..][i]) == Failure(e)
                         && forall j :: 0 <= j < i ==> f(xs[1..][j]).Success?
    ensures exists i :: 0 <= i < |xs| && f(xs[i]) == Failure(e)
                        && forall j :: 0 <= j < i ==> f(xs[j]).Success?
  {
    var i :| 0 <= i < |xs| - 1 && f(xs[1..][i]) == Failure(e)
             && forall j :: 0 <= j < i ==> f(xs[1..][j]).Success?;
    assert xs[i + 1] == xs[1..][i];
    forall j | 0 < j < i + 1 ensures f(xs[j]).Success? {
      assert xs[j] == xs[1..][j - 1];
    }
  }

  /** Every mount's catalog is keyed by its entries' own paths. */
  predicate Valid(f: Filter) {
    forall i :: 0 <= i < |f.webapps| ==> WellKeyed(f.webapps[i].resources)
  }

  /** The constructor: load all mounts, then sort them for routing. */
  function New(descriptors: seq<map<string, string>>, classpath: string -> Option<seq<string>>)
    : (r: Result<Filter, LoadError>)
    ensures r.Success? <==> LoadWebapps(descriptors, classpath).Success?
    ensures r.Failure? ==> r.error == LoadWebapps(descriptors, classpath).error
    ensures r.Success? ==> Valid(r.value) && Sorted(r.value.webapps)
                           && multiset(r.value.webapps) == multiset(LoadWebapps(descriptors, classpath).value)
  {
    match LoadWebapps(descriptors, classpath)
    case Failure(e) => Failure(e)
    case Success(ws) =>
      var sorted := SortMounts(ws);
      LoadedMountsWellKeyed(descriptors, classpath);
      PermutationKeepsWellKeyed(ws, sorted);
      Success(Filter(sorted))
  }

  lemma LoadedMountsWellKeyed(descriptors: seq<map<string, string>>, classpath: string -> Option<seq<string>>)
    requires LoadWebapps(descriptors, classpath).Success?
    ensures Valid(Filter(LoadWebapps(descriptors, classpath).value))
  {
    var ws := LoadWebapps(descriptors, classpath).value;
    forall i | 0 <= i < |ws| ensures WellKeyed(ws[i].resources) {
      assert Parse(descriptors[i], classpath) == Success(ws[i]);
    }
  }

  lemma PermutationKeepsWellKeyed(ws: seq<Webapp>, sorted: seq<Webapp>)
    requires Valid(Filter(ws)) && multiset(sorted) == multiset(ws)
    ensures Valid(Filter(sorted))
  {
    forall i | 0 <= i < |sorted| ensures WellKeyed(sorted[i].resources) {
      assert sorted[i] in multiset(ws);
      var j :| 0 <= j < |ws| && ws[j] == sorted[i];
    }
  }

  /** `path.length() > prefix.length() ? path.substring(prefix.length()) : ""` — on a
      URI that starts with the prefix this is simply what follows the prefix. */
  function Remainder(mountPath: string, uri: string): (rest: string)
    requires mountPath <= uri
    ensures mountPath + rest == uri
  {
    if |uri| > |mountPath| then uri[|mountPath|..] else ""
  }

  /** The catalog key a URI selects within a mount. */
  function RequestKey(mountPath: string, uri: string): string
    requires mountPath <= uri
  {
    NormaliseKey(Remainder(mountPath, uri))
  }

  /** The filter's `doGet` for one mount: guard the prefix, strip it, normalise, look up
      with fallback, and answer with the conditional response. A missing fallback
      entry makes `resource` null, and the request fails. */
  function DoGet(w: Webapp, uri: string, ifNoneMatch: Option<string>, fetch: string -> Option<Bytes>): (r: Response)
    requires WellKeyed(w.resources)
    ensures !(w.path <= uri) <==> r == Failed(UnexpectedPath(uri))
    ensures !r.PassToChain?
    ensures r == Failed(NoResource) <==>
              w.path <= uri && RequestKey(w.path, uri) !in w.resources && w.indexHtmlRelativePath !in w.resources
    ensures r.NotModified? ==> ifNoneMatch == Some(r.headers.eTag)
    ensures r.Ok? ==> ifNoneMatch != Some(r.headers.eTag)
  {
    if !(w.path <= uri) then Failed(UnexpectedPath(uri))
    else
      match Lookup(w.resources, w.indexHtmlRelativePath, RequestKey(w.path, uri))
      case None => Failed(NoResource)
      case Some(resource) => Serve(resource, w.resourceRoot, ifNoneMatch, fetch)
  }

  /** `doFilter`: serve from the first mount in routing order whose path prefixes the
      URI, or hand the request on untouched when there is none. */
  function DoFilter(f: Filter, uri: string, ifNoneMatch: Option<string>, fetch: string -> Option<Bytes>): (r: Response)
    requires Valid(f)
    ensures r.PassToChain? <==> forall i :: 0 <= i < |f.webapps| ==> !(f.webapps[i].path <= uri)
    ensures !(r.Failed? && r.error.UnexpectedPath?)
  {
    match Route(f.webapps, uri)
    case None => PassToChain
    case Some(w) =>
      assert WellKeyed(w.resources);
      DoGet(w, uri, ifNoneMatch, fetch)
  }

  /** A constructed filter serves every claimed URI from the mount with the longest
      path that prefixes it. */
  lemma ServedByLongestMount(f: Filter, uri: string, ifNoneMatch: Option<string>, fetch: string -> Option<Bytes>)
    requires Valid(f) && Sorted(f.webapps)
    requires exists i :: 0 <= i < |f.webapps| && f.webapps[i].path <= uri
    ensures Route(f.webapps, uri).Some?
    ensures var w := Route(f.webapps, uri).value;
            && w in f.webapps && w.path <= uri
            && (forall j :: 0 <= j < |f.webapps| && f.webapps[j].path <= uri ==> f.webapps[j].path <= w.path)
            && DoFilter(f, uri, ifNoneMatch, fetch) == DoGet(w, uri, ifNoneMatch, fetch)
  {
    RouteFindsLongestMatch(f.webapps, uri);
  }

  /** Within a mount, a registered key is served from its own entry, any other key from
      the index document's entry, and when that is missing too the request fails. */
  lemma MountResolution(w: Webapp, uri: string, ifNoneMatch: Option<string>, fetch: string -> Option<Bytes>)
    requires WellKeyed(w.resources) && w.path <= uri
    ensures var key := RequestKey(w.path, uri);
            var r := DoGet(w, uri, ifNoneMatch, fetch);
            && (key in w.resources ==> r == Serve(w.resources[key], w.resourceRoot, ifNoneMatch, fetch))
            && (key !in w.resources && w.indexHtmlRelativePath in w.resources ==>
                  r == Serve(w.resources[w.indexHtmlRelativePath], w.resourceRoot, ifNoneMatch, fetch))
            && (key !in w.resources && w.indexHtmlRelativePath !in w.resources ==> r == Failed(NoResource))
  {
  }

  /** Matching is a plain string prefix: a mount at `/app` claims `/application`, and
      the catalog key is `lication`. */
  lemma PrefixIsNotSegmentAware(w: Webapp)
    requires w.path == "/app"
    ensures Route([w], "/application") == Some(w)
    ensures RequestKey(w.path, "/application") == "lication"
  {
    assert "/app" <= "/application";
    assert Remainder("/app", "/application") == "lication";
  }

  /** The mount path alone, or followed by `/` or `//`, asks for `index.html`. */
  lemma MountRootAsksForIndex(w: Webapp)
    ensures RequestKey(w.path, w.path) == IndexKey
    ensures RequestKey(w.path, w.path + "/") == IndexKey
    ensures RequestKey(w.path, w.path + "//") == IndexKey
  {
    assert Remainder(w.path, w.path + "/") == "/";
    assert Remainder(w.path, w.path + "//") == "//";
  }
}
