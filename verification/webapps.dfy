/** One mounted application of the multi-app filter (`WebappFilter.Webapp`) and
    its construction from a descriptor's properties. */
module Webapps {
  import opened Wrappers
  import opened ContentTypes
  import opened Manifest

  /** A mount: URL prefix, catalog, byte-source prefix and fallback document key. */
  datatype Webapp = Webapp(path: string, resources: map<string, StaticResource>,
                           resourceRoot: string, indexHtmlRelativePath: string)

  /** The four keys every descriptor must define. */
  const RequiredKeys: set<string> := {"path", "checksumsFileResourcePath", "resourceRoot", "indexHtmlRelativePath"}

  predicate HasRequiredKeys(props: map<string, string>) {
    && "path" in props
    && "checksumsFileResourcePath" in props
    && "resourceRoot" in props
    && "indexHtmlRelativePath" in props
  }

  /** `assertString`: the property's value, or a failure naming the missing key. */
  function RequiredProperty(props: map<string, string>, key: string): (r: Result<string, LoadError>)
    ensures r.Success? <==> key in props
    ensures r.Success? ==> r.value == props[key]
    ensures r.Failure? ==> r.error == MissingProperty(key)
  {
    if key in props then Success(props[key]) else Failure(MissingProperty(key))
  }

  /** `Webapp.parse`: read `path`, load the manifest named by `checksumsFileResourcePath`
      with the eleven-type table, then read `resourceRoot` and `indexHtmlRelativePath`.
      Unlike the servlet it never checks that the index document is registered. */
  function Parse(props: map<string, string>, classpath: string -> Option<seq<string>>): (r: Result<Webapp, LoadError>)
    ensures r.Success? <==>
              && HasRequiredKeys(props)
              && LoadResources(FilterTable, classpath, props["checksumsFileResourcePath"]).Success?
    ensures r.Success? ==>
              && r.value.path == props["path"]
              && r.value.resources == LoadResources(FilterTable, classpath, props["checksumsFileResourcePath"]).value
              && r.value.resourceRoot == props["resourceRoot"]
              && r.value.indexHtmlRelativePath == props["indexHtmlRelativePath"]
              && ValidCatalog(FilterTable, r.value.resources)
    ensures "path" !in props ==> r == Failure(MissingProperty("path"))
    ensures "path" in props && "checksumsFileResourcePath" !in props ==>
              r == Failure(MissingProperty("checksumsFileResourcePath"))
    ensures "path" in props && "checksumsFileResourcePath" in props ==>
              var loaded := LoadResources(FilterTable, classpath, props["checksumsFileResourcePath"]);
              && (loaded.Failure? ==> r == Failure(loaded.error))
              && (loaded.Success? && "resourceRoot" !in props ==> r == Failure(MissingProperty("resourceRoot")))
              && (loaded.Success? && "resourceRoot" in props && "indexHtmlRelativePath" !in props ==>
                    r == Failure(MissingProperty("indexHtmlRelativePath")))
    ensures r.Failure? ==> r.error.MissingProperty? ==> r.error.key in RequiredKeys && r.error.key !in props
  {
    match RequiredProperty(props, "path")
    case Failure(e) => Failure(e)
    case Success(path) =>
      match RequiredProperty(props, "checksumsFileResourcePath")
      case Failure(e) => Failure(e)
      case Success(checksums) =>
        match LoadResources(FilterTable, classpath, checksums)
        case Failure(e) =>
          assert !e.MissingProperty? by { LoadNeverMissesProperty(FilterTable, classpath, checksums); }
          Failure(e)
        case Success(resources) =>
          match RequiredProperty(props, "resourceRoot")
          case Failure(e) => Failure(e)
          case Success(resourceRoot) =>
            match RequiredProperty(props, "indexHtmlRelativePath")
            case Failure(e) => Failure(e)
            case Success(index) => Success(Webapp(path, resources, resourceRoot, index))
  }

  /** Loading a manifest never reports a missing descriptor property. */
  lemma LoadNeverMissesProperty(table: MimeTable, classpath: string -> Option<seq<string>>, file: string)
    ensures var r := LoadResources(table, classpath, file);
            r.Failure? ==> !r.error.MissingProperty?
  {
    match classpath(file)
    case None =>
    case Some(lines) =>
      LinesNeverMissProperty(table, file, lines);
  }

  lemma {:induction false} LinesNeverMissProperty(table: MimeTable, file: string, lines: seq<string>)
    ensures var r := ParseLines(table, file, lines);
            r.Failure? ==> !r.error.MissingProperty?
  {
    if |lines| > 0 {
      LinesNeverMissProperty(table, file, lines[1..]);
    }
  }
}
