/** The single-app servlet: one catalog loaded with the seven-type table, an eager
    check that the index document is registered, and `doGet`. */
module SpaServlet {
  import opened Wrappers
  import opened ContentTypes
  import opened Manifest
  import opened Spa

  datatype Servlet = Servlet(resourceRoot: string, indexHtmlRelativePath: string,
                             resources: map<string, StaticResource>)

  /** What the constructor guarantees: a well-keyed catalog holding the index document. */
  predicate Valid(s: Servlet) {
    WellKeyed(s.resources) && s.indexHtmlRelativePath in s.resources
  }

  /** The constructor: load the manifest, then fail fast unless the index document
      is one of its entries. */
  function New(classpath: string -> Option<seq<string>>, checksumsFileResourcePath: string,
               resourceRoot: string, indexHtmlRelativePath: string): (r: Result<Servlet, LoadError>)
    ensures var loaded := LoadResources(ServletTable, classpath, checksumsFileResourcePath);
            r.Success? <==> loaded.Success? && indexHtmlRelativePath in loaded.value
    ensures var loaded := LoadResources(ServletTable, classpath, checksumsFileResourcePath);
            loaded.Failure? ==> r == Failure(loaded.error)
    ensures var loaded := LoadResources(ServletTable, classpath, checksumsFileResourcePath);
            loaded.Success? && indexHtmlRelativePath !in loaded.value ==>
              r == Failure(MissingRootResource(resourceRoot + indexHtmlRelativePath))
    ensures r.Success? ==> Valid(r.value) && ValidCatalog(ServletTable, r.value.resources)
    ensures r.Success? ==> r.value.resourceRoot == resourceRoot
                           && r.value.indexHtmlRelativePath == indexHtmlRelativePath
  {
    match LoadResources(ServletTable, classpath, checksumsFileResourcePath)
    case Failure(e) => Failure(e)
    case Success(resources) =>
      if indexHtmlRelativePath !in resources then
        Failure(MissingRootResource(resourceRoot + indexHtmlRelativePath))
      else
        Success(Servlet(resourceRoot, indexHtmlRelativePath, resources))
  }

  /** The key a request's path info selects; a missing path info counts as `""`. */
  function RequestKey(pathInfo: Option<string>): string {
    NormaliseKey(pathInfo.GetOr(""))
  }

  /** Resolution is total on a constructed servlet: the entry for `key` when one is
      registered, the index document otherwise. */
  function Resolve(s: Servlet, key: string): (r: StaticResource)
    requires Valid(s)
    ensures r.path in s.resources && s.resources[r.path] == r
    ensures r.path == key <==> key in s.resources
    ensures r.path != key ==> r.path == s.indexHtmlRelativePath
  {
    Lookup(s.resources, s.indexHtmlRelativePath, key).value
  }

  /** `doGet`: resolve the request's key and answer with the conditional response. */
  function DoGet(s: Servlet, pathInfo: Option<string>, ifNoneMatch: Option<string>,
                 fetch: string -> Option<Bytes>): (r: Response)
    requires Valid(s)
    ensures !r.PassToChain?
    ensures r.Failed? ==> r.error.ResourceNotFound?
    ensures r.NotModified? <==> !r.Failed? && ifNoneMatch == Some(r.headers.eTag)
    ensures !r.Failed? ==> exists k :: k in s.resources && r.headers == Headers(s.resources[k].contentType, s.resources[k].eTag)
  {
    var resource := Resolve(s, RequestKey(pathInfo));
    Serve(resource, s.resourceRoot, ifNoneMatch, fetch)
  }

  /** A registered key is served from its own entry. */
  lemma RegisteredKeyServed(s: Servlet, pathInfo: Option<string>, ifNoneMatch: Option<string>,
                            fetch: string -> Option<Bytes>)
    requires Valid(s) && RequestKey(pathInfo) in s.resources
    ensures DoGet(s, pathInfo, ifNoneMatch, fetch)
            == Serve(s.resources[RequestKey(pathInfo)], s.resourceRoot, ifNoneMatch, fetch)
  {
  }

  /** Any other key is served the index document: the SPA fallback. */
  lemma UnknownKeyServesIndex(s: Servlet, pathInfo: Option<string>, ifNoneMatch: Option<string>,
                              fetch: string -> Option<Bytes>)
    requires Valid(s) && RequestKey(pathInfo) !in s.resources
    ensures DoGet(s, pathInfo, ifNoneMatch, fetch)
            == Serve(s.resources[s.indexHtmlRelativePath], s.resourceRoot, ifNoneMatch, fetch)
  {
  }

  /** No path info, `""` and `"/"` all ask for `index.html`, which need not be the
      configured index document. */
  lemma RootRequestsAgree(s: Servlet, ifNoneMatch: Option<string>, fetch: string -> Option<Bytes>)
    requires Valid(s)
    ensures RequestKey(None) == RequestKey(Some("")) == RequestKey(Some("/")) == IndexKey
    ensures DoGet(s, None, ifNoneMatch, fetch) == DoGet(s, Some(""), ifNoneMatch, fetch)
                                               == DoGet(s, Some("/"), ifNoneMatch, fetch)
  {
  }

  /** For a path without a leading slash, adding one changes nothing. */
  lemma LeadingSlashServesSame(s: Servlet, p: string, ifNoneMatch: Option<string>,
                               fetch: string -> Option<Bytes>)
    requires Valid(s) && (|p| == 0 || p[0] != '/')
    ensures DoGet(s, Some("/" + p), ifNoneMatch, fetch) == DoGet(s, Some(p), ifNoneMatch, fetch)
  {
    LeadingSlashIrrelevant(p);
  }

  /** The conditional GET: when the bytes exist, 304 exactly when the client's tag is
      the served resource's tag, and 200 with the bytes otherwise (also for no header). */
  lemma ConditionalGet(s: Servlet, pathInfo: Option<string>, ifNoneMatch: Option<string>,
                       fetch: string -> Option<Bytes>)
    requires Valid(s)
    requires fetch(s.resourceRoot + Resolve(s, RequestKey(pathInfo)).path).Some?
    ensures var res := Resolve(s, RequestKey(pathInfo));
            var r := DoGet(s, pathInfo, ifNoneMatch, fetch);
            && (r.NotModified? <==> ifNoneMatch == Some(res.eTag))
            && (r.Ok? <==> ifNoneMatch != Some(res.eTag))
            && (r.Ok? ==> r.body == fetch(s.resourceRoot + res.path).value)
            && r.headers == Headers(res.contentType, res.eTag)
  {
  }

  /** Missing bytes fail the request whatever the client's tag, before any header is set. */
  lemma MissingBytesFail(s: Servlet, pathInfo: Option<string>, ifNoneMatch: Option<string>,
                         fetch: string -> Option<Bytes>)
    requires Valid(s)
    requires fetch(s.resourceRoot + Resolve(s, RequestKey(pathInfo)).path).None?
    ensures DoGet(s, pathInfo, ifNoneMatch, fetch)
            == Failed(ResourceNotFound(s.resourceRoot + Resolve(s, RequestKey(pathInfo)).path))
  {
  }

  /** End to end: a servlet over `index.html` and `main.js` answers an unregistered
      route with index.html's bytes and tag, or 304 when the client already has that tag. */
  lemma UnregisteredRouteExample(classpath: string -> Option<seq<string>>, file: string, root: string,
                                 fetch: string -> Option<Bytes>, index: StaticResource, js: StaticResource)
    requires index == StaticResource("index.html", "text/html", index.eTag)
    requires js == StaticResource("main.js", "text/javascript", js.eTag)
    requires WellShaped(index) && WellShaped(js)
    requires classpath(file) == Some(RenderManifest([index, js]))
    requires fetch(root + "index.html").Some?
    ensures New(classpath, file, root, "index.html").Success?
    ensures var s := New(classpath, file, root, "index.html").value;
            && DoGet(s, Some("/foo/bar"), None, fetch)
               == Ok(Headers("text/html", index.eTag), fetch(root + "index.html").value)
            && DoGet(s, Some("/foo/bar"), Some(index.eTag), fetch)
               == NotModified(Headers("text/html", index.eTag))
  {
    ExampleCatalogLoads(classpath, file, index, js);
    var loaded := LoadResources(ServletTable, classpath, file).value;
    var s := Servlet(root, "index.html", loaded);
    assert New(classpath, file, root, "index.html") == Success(s);
    ExampleRequests(s, root, fetch, index);
  }

  lemma ExampleRequests(s: Servlet, root: string, fetch: string -> Option<Bytes>, index: StaticResource)
    requires s.resourceRoot == root && s.indexHtmlRelativePath == "index.html"
    requires WellKeyed(s.resources) && s.resources.Keys == {"index.html", "main.js"}
    requires s.resources["index.html"] == index && index.contentType == "text/html"
    requires fetch(root + "index.html").Some?
    ensures DoGet(s, Some("/foo/bar"), None, fetch)
            == Ok(Headers("text/html", index.eTag), fetch(root + "index.html").value)
    ensures DoGet(s, Some("/foo/bar"), Some(index.eTag), fetch)
            == NotModified(Headers("text/html", index.eTag))
  {
    assert RequestKey(Some("/foo/bar")) == "foo/bar";
    assert "foo/bar" !in s.resources;
    UnknownKeyServesIndex(s, Some("/foo/bar"), None, fetch);
    UnknownKeyServesIndex(s, Some("/foo/bar"), Some(index.eTag), fetch);
  }

  lemma ExampleCatalogLoads(classpath: string -> Option<seq<string>>, file: string,
                            index: StaticResource, js: StaticResource)
    requires index == StaticResource("index.html", "text/html", index.eTag)
    requires js == StaticResource("main.js", "text/javascript", js.eTag)
    requires WellShaped(index) && WellShaped(js)
    requires classpath(file) == Some(RenderManifest([index, js]))
    ensures var r := LoadResources(ServletTable, classpath, file);
            r.Success? && r.value.Keys == {"index.html", "main.js"} && r.value["index.html"] == index
  {
    var entries := [index, js];
    ExampleRenderable(index, js);
    ExamplePaths(index, js);
    LoadRenderedManifest(ServletTable, classpath, file, entries);
    assert BuildMap(entries).value[entries[0].path] == entries[0];
  }

  lemma ExampleRenderable(index: StaticResource, js: StaticResource)
    requires index == StaticResource("index.html", "text/html", index.eTag)
    requires js == StaticResource("main.js", "text/javascript", js.eTag)
    requires WellShaped(index) && WellShaped(js)
    ensures forall i :: 0 <= i < |[index, js]| ==> Renderable(ServletTable, [index, js][i])
  {
    ExampleContentTypes();
  }

  lemma ExamplePaths(index: StaticResource, js: StaticResource)
    requires index.path == "index.html" && js.path == "main.js"
    ensures DistinctPaths([index, js]) && Paths([index, js]) == {"index.html", "main.js"}
  {
    var entries := [index, js];
    assert entries[0].path == "index.html" && entries[1].path == "main.js";
  }

  lemma ExampleContentTypes()
    ensures ContentType(ServletTable, "index.html") == Some("text/html")
    ensures ContentType(ServletTable, "main.js") == Some("text/javascript")
  {
    IndexHtmlType();
    MainJsType();
  }

  lemma IndexHtmlType()
    ensures ContentType(ServletTable, "index.html") == Some("text/html")
  {
    ExtensionOfName("index", "html");
    assert "index" + "." + "html" == "index.html";
    assert Types(ServletTable)["html"] == "text/html";
  }

  lemma MainJsType()
    ensures ContentType(ServletTable, "main.js") == Some("text/javascript")
  {
    ExtensionOfName("main", "js");
    assert "main" + "." + "js" == "main.js";
    assert Types(ServletTable)["js"] == "text/javascript";
  }
}
