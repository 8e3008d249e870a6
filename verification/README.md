# Static-asset serving for single-page apps, modelled in Dafny

This project models the request-to-response core of the Concord webapp plugin.
The plugin serves the built files of single-page applications from the classpath,
in two near-duplicate variants:

- `SpaServlet` serves one app. Its constructor loads a checksum manifest and refuses
  to start unless the index document is registered. Its `doGet` normalises the path
  info, looks the key up with a fallback to the index document, and answers 200 with
  the bytes or 304 when `If-None-Match` equals the entry's ETag.
- `WebappFilter` serves several apps. It discovers mount descriptors
  (`webapp.properties`), loads each manifest with a larger content-type table, and
  sorts the mounts by the reversed natural order of their paths
  (`WebappCollection`). Each request goes to the first mount whose path prefixes
  the URI, or to the rest of the filter chain when no mount matches.

Everything is a pure function over strings, maps and options:

- The classpath becomes two parameters:
  - `classpath: string -> Option<seq<string>>` maps a manifest name to its lines.
  - `fetch: string -> Option<Bytes>` maps a file path to the asset's bytes.
- Each exception the source throws becomes an error value:
  - a `LoadError` during construction;
  - `Failed(RequestError)` during a request.

Modules follow the source:

- `JavaString`: Java's `trim`, `lastIndexOf`, `split(",")` and `compareTo`.
- `ContentTypes`: both `getContentType` tables.
- `Manifest`: `loadResources` and the `StaticResource` record.
- `Spa`: the normalisation, lookup and conditional response that both `doGet`s share.
- `SpaServlet`: the servlet.
- `Webapps`: `Webapp.parse` and `assertString`.
- `WebappCollection`: mount order and routing.
- `WebappFilter`: `loadWebapps`, `doGet` and `doFilter`.

Two behaviours of the code are easy to misread:

- A blank or all-whitespace manifest line is not skipped. It trims to `""`, and
  `"".split(",")` yields one field, so loading fails with an invalid-line error
  (`Manifest.BlankLineFails`).
- Mounts are not sorted by path length. They are sorted by reversed `compareTo`
  order. That order still puts the longest matching prefix first
  (`WebappCollection.RouteFindsLongestMatch`), but `/b` comes before `/a/long`
  (`WebappCollection.ReverseOrderIsNotByLength`).

## Model

| member | source | states |
|---|---|---|
| JavaString.Trim | src/main/java/ca/ibodrov/concord/webapp/SpaServlet.java:116 | `trim` keeps an infix of the line whose first and last characters are above U+0020, removing only characters at or below U+0020 from either end; an already-trimmed line is unchanged |
| JavaString.LastIndexOf | src/main/java/ca/ibodrov/concord/webapp/SpaServlet.java:87 | the result is -1 or an index holding the character, and no later index holds it |
| JavaString.Split | src/main/java/ca/ibodrov/concord/webapp/SpaServlet.java:122 | without a separator the line is the only field (so `""` gives one field); otherwise the fields between separators with trailing empty fields dropped; no field contains the separator |
| JavaString.JoinFields | src/main/java/ca/ibodrov/concord/webapp/SpaServlet.java:122 | joining the raw fields with the separator gives back the line |
| JavaString.FieldsJoin | src/main/java/ca/ibodrov/concord/webapp/SpaServlet.java:122 | separator-free fields, once joined, split back into the same fields |
| JavaString.SplitPair | src/main/java/ca/ibodrov/concord/webapp/SpaServlet.java:122-128 | `a,b` followed by any number of commas splits into exactly `[a, b]` when both are comma-free and `b` is non-empty |
| JavaString.SplitPairShape | src/main/java/ca/ibodrov/concord/webapp/SpaServlet.java:122-128 | a line that splits into two fields is those fields joined by one comma, followed only by commas |
| JavaString.Utf16Length | src/main/java/ca/ibodrov/concord/webapp/WebappFilter.java:192-193 | a string's length in UTF-16 code units (the unit of Java's indexes) lies between its length in characters and twice that, and is zero only for the empty string |
| JavaString.Utf16LengthOfBmp | src/main/java/ca/ibodrov/concord/webapp/WebappFilter.java:192-193 | a string with no character outside the Basic Multilingual Plane has as many code units as characters |
| JavaString.CompareTo | src/main/java/ca/ibodrov/concord/webapp/WebappFilter.java:136 | `compareTo` is zero exactly for equal strings |
| JavaString.CompareToAntisymmetric | src/main/java/ca/ibodrov/concord/webapp/WebappFilter.java:136 | swapping the arguments negates the comparison |
| JavaString.CompareToTransitive | src/main/java/ca/ibodrov/concord/webapp/WebappFilter.java:136 | "not less than" is transitive, so the reversed order is a total preorder a sort can use |
| JavaString.ProperPrefixIsLess | src/main/java/ca/ibodrov/concord/webapp/WebappFilter.java:131-137 | a proper prefix compares below its extension, so the reversed order puts longer nested paths first |
| JavaString.PrefixesAreNested | src/main/java/ca/ibodrov/concord/webapp/WebappFilter.java:41 | two prefixes of the same URI are prefixes of one another |
| ContentTypes.Extension | src/main/java/ca/ibodrov/concord/webapp/WebappFilter.java:192-196 | an extension exists iff some dot that is not the last character, has at least two UTF-16 code units before it and has no dot after it; the extension is the non-empty dot-free text after that dot |
| ContentTypes.ContentType | src/main/java/ca/ibodrov/concord/webapp/WebappFilter.java:191-211 | a type exists iff the extension exists and is a key of the table, and it is that key's type; a typed name has at least four characters |
| ContentTypes.AstralStemCounts | src/main/java/ca/ibodrov/concord/webapp/WebappFilter.java:192-193 | `😀.css` is typed `text/css`, since its one-character stem is two code units, while `é.css` has no type |
| ContentTypes.ExtensionOfName | src/main/java/ca/ibodrov/concord/webapp/SpaServlet.java:86-91 | a stem of two or more characters, a dot and a non-empty dot-free extension give that extension |
| ContentTypes.ServletTableIsSubTable | src/main/java/ca/ibodrov/concord/webapp/SpaServlet.java:92-101 | every name the servlet types, the filter types identically |
| ContentTypes.ServletTableSize | src/main/java/ca/ibodrov/concord/webapp/SpaServlet.java:92-101 | the servlet's table has seven extensions |
| ContentTypes.FilterTableSize | src/main/java/ca/ibodrov/concord/webapp/WebappFilter.java:197-210 | the filter's extensions are the servlet's seven plus five raster image ones, twelve in all across eleven cases |
| ContentTypes.RasterImagesOnlyInFilter | src/main/java/ca/ibodrov/concord/webapp/WebappFilter.java:199-206 | gif, png, jpg, jpeg and webp get a type only from the filter's table, and jpg and jpeg share `image/jpeg` |
| ContentTypes.ExtensionIsCaseSensitive | src/main/java/ca/ibodrov/concord/webapp/WebappFilter.java:196-197 | `STYLE.CSS` has no type: the switch compares case-sensitively |
| ContentTypes.ShortStemOrEmptyExtension | src/main/java/ca/ibodrov/concord/webapp/WebappFilter.java:192-195 | `a.css`, `.css` and `index.` have no type: the dot is before index 2 or is the last character |
| Manifest.ParseLine | src/main/java/ca/ibodrov/concord/webapp/SpaServlet.java:116-132 | a line is skipped iff it trims to a `#`-prefixed string; a loaded entry has a resolvable type and a non-empty comma-free tag, and its line is path, comma, tag and trailing commas; otherwise the error is an invalid line whose split is not two fields, or an unknown type for a path the table cannot type |
| Manifest.ParseLineLoads | src/main/java/ca/ibodrov/concord/webapp/SpaServlet.java:122-132 | a non-comment line that does not split into two fields fails as an invalid line; one that does loads as (first field, its type, second field) when the first field has a type, and otherwise fails naming the first field |
| Manifest.ParseLines | src/main/java/ca/ibodrov/concord/webapp/SpaServlet.java:115-133 | the loop yields at most one entry per line, each one a valid entry |
| Manifest.ParseLinesAppend | src/main/java/ca/ibodrov/concord/webapp/SpaServlet.java:115-133 | reading two blocks of lines one after the other yields the first block's entries followed by the second's, or the first failure |
| Manifest.ParseLinesFailsIffSomeLineFails | src/main/java/ca/ibodrov/concord/webapp/SpaServlet.java:115-133 | the loop fails iff at least one line fails |
| Manifest.ParseLinesFailsAtFirstBadLine | src/main/java/ca/ibodrov/concord/webapp/SpaServlet.java:115-133 | a failing loop reports the error of its first failing line, and every earlier line is a comment or an entry |
| Manifest.BuildMap | src/main/java/ca/ibodrov/concord/webapp/SpaServlet.java:104-139 | the built map's keys are exactly the entries' paths, each mapped to its entry; a failure is a duplicate key naming one of those paths |
| Manifest.BuildMapSucceedsIffDistinct | src/main/java/ca/ibodrov/concord/webapp/SpaServlet.java:139 | the build succeeds iff no two entries share a path |
| Manifest.BuildMapReportsFirstDuplicate | src/main/java/ca/ibodrov/concord/webapp/SpaServlet.java:139 | a failed build names a path that occurs twice among the entries, taken as the first entry whose path repeats an earlier one |
| Manifest.LoadResources | src/main/java/ca/ibodrov/concord/webapp/SpaServlet.java:104-140 | a missing manifest fails naming the file; a loaded catalog stores every entry under its own path, with a resolvable type and a non-empty comma-free tag |
| Manifest.LineErrorWins | src/main/java/ca/ibodrov/concord/webapp/SpaServlet.java:113-139 | when a found manifest has a first failing line, the load throws that line's error, whatever the later lines hold and even when paths repeat |
| Manifest.LoadSucceedsIff | src/main/java/ca/ibodrov/concord/webapp/SpaServlet.java:113-139 | a found manifest loads iff every line is a comment or an entry and no two entries share a path; the loaded map's keys are exactly the entries' paths |
| Manifest.ParseShapedLine | src/main/java/ca/ibodrov/concord/webapp/SpaServlet.java:116-132 | a line rendered from a well-shaped path and tag loads as that path and tag with the table's type, or fails naming the path |
| Manifest.ParseEntryLine | src/main/java/ca/ibodrov/concord/webapp/SpaServlet.java:116-132 | an entry's own line loads back into that entry |
| Manifest.ParseRendered | src/main/java/ca/ibodrov/concord/webapp/SpaServlet.java:115-133 | a manifest rendered from loadable entries parses back into exactly those entries, in order |
| Manifest.LoadRenderedManifest | src/main/java/ca/ibodrov/concord/webapp/SpaServlet.java:104-140 | a rendered manifest loads as the map build over its entries, which succeeds iff no path repeats |
| Manifest.CommentLineSkipped | src/main/java/ca/ibodrov/concord/webapp/SpaServlet.java:116-120 | a line that trims to a `#`-prefixed string contributes nothing |
| Manifest.BlankLineFails | src/main/java/ca/ibodrov/concord/webapp/SpaServlet.java:116-125 | a blank or whitespace-only line fails the load as an invalid empty line |
| Manifest.TrailingCommaTolerated | src/main/java/ca/ibodrov/concord/webapp/SpaServlet.java:122-132 | `path,tag` followed by any number of commas loads like `path,tag` |
| Manifest.StylesheetLineExample | src/main/java/ca/ibodrov/concord/webapp/SpaServlet.java:116-132 | `style.css,abc123` loads as a `text/css` entry tagged `abc123` under either table |
| Manifest.UnknownExtensionExample | src/main/java/ca/ibodrov/concord/webapp/SpaServlet.java:129-130 | `data.bin,abc123` fails because no table types `bin` |
| Manifest.ServletRejectsRasterImages | src/main/java/ca/ibodrov/concord/webapp/SpaServlet.java:86-130 | a raster image line fails the servlet's load but loads under the filter's table |
| Spa.NormaliseKey | src/main/java/ca/ibodrov/concord/webapp/SpaServlet.java:50-58 | the key is never `""` or `"/"`; it is the path, the path without one leading slash, or `index.html`; it is `index.html` iff the path is `""`, `/`, `//`, `index.html` or `/index.html`; any other key is the path with its leading slash, if any, removed |
| Spa.LeadingSlashIrrelevant | src/main/java/ca/ibodrov/concord/webapp/SpaServlet.java:52-58 | for a path without a leading slash, adding one gives the same key |
| Spa.PlainPathIsItsKey | src/main/java/ca/ibodrov/concord/webapp/SpaServlet.java:50-58 | a non-empty path without a leading slash is its own key |
| Spa.Lookup | src/main/java/ca/ibodrov/concord/webapp/WebappFilter.java:67-68 | there is no resource iff neither the key nor the index document is registered; the resource is the key's own entry iff the key is registered, and otherwise the index document's entry |
| Spa.Serve | src/main/java/ca/ibodrov/concord/webapp/WebappFilter.java:70-85 | missing bytes fail naming root plus path; otherwise both headers carry the entry's type and tag, the status is 304 iff `If-None-Match` equals the tag, and a 200 carries the fetched bytes |
| Spa.OnlyExactTagMatches | src/main/java/ca/ibodrov/concord/webapp/SpaServlet.java:73-79 | `*`, a weak `W/` tag and an absent header all get 200; only the exact tag gets 304 |
| SpaServlet.New | src/main/java/ca/ibodrov/concord/webapp/SpaServlet.java:32-44 | construction succeeds iff the manifest loads and registers the index document; a load failure is passed on, and a missing index document fails naming root plus index path; the servlet keeps its arguments and a valid catalog |
| SpaServlet.Resolve | src/main/java/ca/ibodrov/concord/webapp/SpaServlet.java:61-62 | on a constructed servlet resolution is total: the key's own entry iff the key is registered, otherwise the index document's entry |
| SpaServlet.DoGet | src/main/java/ca/ibodrov/concord/webapp/SpaServlet.java:47-84 | a request never passes on and fails only for missing bytes; 304 iff `If-None-Match` equals the served tag; the headers are some registered entry's type and tag |
| SpaServlet.RegisteredKeyServed | src/main/java/ca/ibodrov/concord/webapp/SpaServlet.java:61-79 | a registered key is served from its own entry |
| SpaServlet.UnknownKeyServesIndex | src/main/java/ca/ibodrov/concord/webapp/SpaServlet.java:61-79 | any other key is served the index document's entry |
| SpaServlet.RootRequestsAgree | src/main/java/ca/ibodrov/concord/webapp/SpaServlet.java:48-58 | no path info, `""` and `/` all ask for `index.html` and get the same response |
| SpaServlet.LeadingSlashServesSame | src/main/java/ca/ibodrov/concord/webapp/SpaServlet.java:52-58 | for a path without a leading slash, adding one leaves the response unchanged |
| SpaServlet.ConditionalGet | src/main/java/ca/ibodrov/concord/webapp/SpaServlet.java:70-79 | when the bytes exist, both headers are set; the answer is 304 iff `If-None-Match` equals the resolved tag, and otherwise 200 with the bytes |
| SpaServlet.MissingBytesFail | src/main/java/ca/ibodrov/concord/webapp/SpaServlet.java:64-68 | missing bytes fail naming root plus path, whatever the client's tag |
| SpaServlet.UnregisteredRouteExample | src/main/java/ca/ibodrov/concord/webapp/SpaServlet.java:32-79 | a servlet over `index.html` and `main.js` answers `/foo/bar` with index.html's bytes and tag, or 304 when the client already holds that tag |
| Webapps.RequiredProperty | src/main/java/ca/ibodrov/concord/webapp/WebappFilter.java:183-189 | the value is returned iff the key is present; otherwise the failure names the key |
| Webapps.Parse | src/main/java/ca/ibodrov/concord/webapp/WebappFilter.java:113-126 | parsing succeeds iff all four keys are present and the manifest loads; the fields come from the properties and the catalog is valid; a missing `path` is reported first and a missing manifest name next; a manifest error wins over a missing `resourceRoot` or `indexHtmlRelativePath`, which are reported in that order once the manifest loads; a missing-property error always names a required key the descriptor lacks |
| Webapps.LoadNeverMissesProperty | src/main/java/ca/ibodrov/concord/webapp/WebappFilter.java:145-181 | loading a manifest never fails with a missing-property error |
| Webapps.LinesNeverMissProperty | src/main/java/ca/ibodrov/concord/webapp/WebappFilter.java:156-174 | the line loop never fails with a missing-property error |
| WebappCollection.Insert | src/main/java/ca/ibodrov/concord/webapp/WebappFilter.java:135-137 | inserting into a sorted list keeps it sorted and adds exactly the new mount |
| WebappCollection.SortMounts | src/main/java/ca/ibodrov/concord/webapp/WebappFilter.java:134-138 | the mounts come out sorted by reversed `compareTo` order of their paths, as a permutation of the input |
| WebappCollection.Route | src/main/java/ca/ibodrov/concord/webapp/WebappFilter.java:41 | there is no match iff no mount path prefixes the URI; a match is one of the mounts and its path prefixes the URI |
| WebappCollection.RouteFindsLongestMatch | src/main/java/ca/ibodrov/concord/webapp/WebappFilter.java:131-137 | on a sorted list the first match is the longest: every matching mount path is a prefix of it and no longer |
| WebappCollection.SortedRoutingIsLongestPrefix | src/main/java/ca/ibodrov/concord/webapp/WebappFilter.java:129-138 | routing through the sorted mounts fails iff no discovered mount matches; otherwise it picks a discovered matching mount that every other matching path prefixes |
| WebappCollection.NestedMountsExample | src/main/java/ca/ibodrov/concord/webapp/WebappFilter.java:41-46 | with mounts `/app` and `/app/admin`, `/app/admin/x` goes to `/app/admin` and `/app/other` goes to `/app` |
| WebappCollection.ReverseOrderIsNotByLength | src/main/java/ca/ibodrov/concord/webapp/WebappFilter.java:136 | `/b` sorts before the longer `/a/long` |
| WebappFilter.LoadWebapps | src/main/java/ca/ibodrov/concord/webapp/WebappFilter.java:92-106 | loading succeeds iff every descriptor parses, giving one mount per descriptor in order; a failure is that of the first descriptor that fails |
| WebappFilter.New | src/main/java/ca/ibodrov/concord/webapp/WebappFilter.java:134-138 | construction succeeds iff every descriptor loads, and otherwise fails with the first failing descriptor's error; the mounts are sorted, well keyed and a permutation of the loaded ones |
| WebappFilter.Remainder | src/main/java/ca/ibodrov/concord/webapp/WebappFilter.java:56 | the mount path followed by the remainder is the URI |
| WebappFilter.DoGet | src/main/java/ca/ibodrov/concord/webapp/WebappFilter.java:49-90 | the prefix guard fails iff the mount path does not prefix the URI; a null resource fails iff neither the key nor the index document is registered; a 304 only for a matching tag and a 200 only otherwise |
| WebappFilter.DoFilter | src/main/java/ca/ibodrov/concord/webapp/WebappFilter.java:38-47 | the request goes to the chain iff no mount path prefixes the URI; the unexpected-path error is unreachable after routing |
| WebappFilter.ServedByLongestMount | src/main/java/ca/ibodrov/concord/webapp/WebappFilter.java:38-47 | on a constructed filter a claimed URI is served by the mount whose path is the longest matching prefix |
| WebappFilter.MountResolution | src/main/java/ca/ibodrov/concord/webapp/WebappFilter.java:62-85 | within a mount a registered key gets its own entry, any other key the index document's entry, and if that is missing too the request fails; the filter never checks for the index document |
| WebappFilter.PrefixIsNotSegmentAware | src/main/java/ca/ibodrov/concord/webapp/WebappFilter.java:56-60 | mount `/app` claims `/application` and asks for key `lication` |
| WebappFilter.MountRootAsksForIndex | src/main/java/ca/ibodrov/concord/webapp/WebappFilter.java:56-64 | the mount path alone, or followed by `/` or `//`, asks for `index.html` |

## Left out

- Servlet and filter plumbing is not modelled: `HttpServletRequest`, `HttpServletResponse`, `FilterChain`, `ByteStreams.copy` and the `@WebFilter`/`@Priority` registration. A response is a value, and passing to the chain is the `PassToChain` case.
- Classloader reads are parameters, not code: `getResourceAsStream`, `getResources`, `URL.openStream` and `BufferedReader.readLine`. The model does not cover how a byte stream is decoded into lines.
- The `java.util.Properties` file syntax is left out, because it is a library format. Each descriptor is a `map<string, string>`.
- An `IOException` while reading or copying is not modelled. The source turns it into a 500 response or a `RuntimeException`, and the byte source here cannot fail part way.
- Null arguments to the constructors (`requireNonNull`) are not modelled, because Dafny strings cannot be null.
- The message text of each exception is left out. Errors keep only the data they name (file, line, path, key).
- JavaString.LastIndexOf: returns an index counted in characters, where Java counts UTF-16 code units. `ContentTypes.Extension` measures the text before the dot with `JavaString.Utf16Length`, so Java's "at least two units before the dot" threshold is kept.
- Manifest.BuildMapReportsFirstDuplicate: which repeated path the error names is chosen by Guava's `ImmutableMap.Builder.build`, which is not part of this model. The model assumes the first entry that repeats an earlier path. Only "the named path occurs at least twice" is independent of that choice.
- JavaString.CompareTo: compares Unicode scalar values, where Java compares UTF-16 code units. The two orders differ only for characters outside the Basic Multilingual Plane, and the longest-prefix result holds under either.
- WebappCollection.SortMounts: the contract states sortedness and permutation but not stability. Stability only decides which of two mounts with identical paths comes first.
- `WebappModule.java` and `WebappPluginModule.java` are Guice wiring and are not part of this model.
- `IntegrationTest.java` starts a database and a server by hand and asserts nothing, so it is not part of this model either.
