/** Content-type inference from a file name's extension, in the two variants the
    repository carries: the single-app servlet's seven-entry table and the
    multi-app filter's eleven-entry table. */
module ContentTypes {
  import opened Wrappers
  import opened JavaString

  /** Which of the two `getContentType` switch statements is in force. */
  datatype MimeTable = ServletTable | FilterTable

  /** The servlet's table: text, script, vector-image and font types only. */
  const ServletTypes: map<string, string> := map[
    "css" := "text/css",
    "html" := "text/html",
    "js" := "text/javascript",
    "svg" := "image/svg+xml",
    "ttf" := "font/ttf",
    "woff" := "font/woff",
    "woff2" := "font/woff2"
  ]

  /** The filter's table, which adds the raster image types. */
  const FilterTypes: map<string, string> := map[
    "css" := "text/css",
    "gif" := "image/gif",
    "html" := "text/html",
    "jpg" := "image/jpeg",
    "jpeg" := "image/jpeg",
    "js" := "text/javascript",
    "png" := "image/png",
    "svg" := "image/svg+xml",
    "ttf" := "font/ttf",
    "webp" := "image/webp",
    "woff" := "font/woff",
    "woff2" := "font/woff2"
  ]

  function Types(table: MimeTable): map<string, string> {
    match table
    case ServletTable => ServletTypes
    case FilterTable => FilterTypes
  }

  /** The text after the last `.`, provided at least two UTF-16 code units precede that
      dot and at least one character follows it. Java's `lastIndexOf` and `extIdx < 2`
      count code units, so the stem is measured with `Utf16Length`; a `.` is one unit
      wherever it stands, so "not the last character" reads the same in both measures. */
  function Extension(fileName: string): (r: Option<string>)
    ensures r.Some? ==> var dot := |fileName| - |r.value| - 1;
                        && 0 <= dot && 2 <= Utf16Length(fileName[..dot]) && fileName[dot] == '.'
                        && fileName[dot + 1..] == r.value
                        && r.value != "" && '.' !in r.value
    ensures r.None? <==> !(exists dot :: 0 <= dot < |fileName| - 1 && fileName[dot] == '.'
                                         && 2 <= Utf16Length(fileName[..dot])
                                         && '.' !in fileName[dot + 1..])
  {
    var dot := LastIndexOf(fileName, '.');
    LastDotIsTheOnlyCandidate(fileName);
    if dot < 0 || Utf16Length(fileName[..dot]) < 2 || dot >= |fileName| - 1 then
      None
    else
      assert '.' !in fileName[dot + 1..];
      Some(fileName[dot + 1..])
  }

  /** The only dot with no dot after it is the one `lastIndexOf` finds. */
  lemma LastDotIsTheOnlyCandidate(fileName: string)
    ensures forall d :: 0 <= d < |fileName| && fileName[d] == '.' && '.' !in fileName[d + 1..] ==>
              d == LastIndexOf(fileName, '.')
  {
  }

  /** Java's `getContentType`: the table's type for the file's extension, compared
      case-sensitively. */
  function ContentType(table: MimeTable, fileName: string): (r: Option<string>)
    ensures r.Some? <==> Extension(fileName).Some? && Extension(fileName).value in Types(table)
    ensures r.Some? ==> r.value == Types(table)[Extension(fileName).value]
    ensures r.Some? ==> |fileName| >= 4
  {
    match Extension(fileName)
    case None => None
    case Some(ext) => if ext in Types(table) then Some(Types(table)[ext]) else None
  }

  /** A stem of at least two characters, a dot and a dot-free non-empty extension
      always yield that extension back. */
  lemma ExtensionOfName(stem: string, ext: string)
    requires |stem| >= 2 && ext != "" && '.' !in ext
    ensures Extension(stem + "." + ext) == Some(ext)
  {
    var f := stem + "." + ext;
    assert f[|stem|] == '.' && f[|stem| + 1..] == ext && f[..|stem|] == stem;
  }

  /** Every type the servlet resolves, the filter resolves identically. */
  lemma ServletTableIsSubTable(fileName: string)
    ensures ContentType(ServletTable, fileName).Some? ==>
              ContentType(FilterTable, fileName) == ContentType(ServletTable, fileName)
  {
  }

  /** The extensions both tables name. */
  const CommonExtensions: set<string> := {"css", "html", "js", "svg", "ttf", "woff", "woff2"}

  lemma CommonExtensionCount()
    ensures |CommonExtensions| == 7
  {
    assert CommonExtensions == {"css"} + {"html"} + {"js"} + {"svg"} + {"ttf"} + {"woff"} + {"woff2"};
    assert |{"css"} + {"html"}| == 2;
    assert |{"css"} + {"html"} + {"js"}| == 3;
    assert |{"css"} + {"html"} + {"js"} + {"svg"}| == 4;
    assert |{"css"} + {"html"} + {"js"} + {"svg"} + {"ttf"}| == 5;
    assert |{"css"} + {"html"} + {"js"} + {"svg"} + {"ttf"} + {"woff"}| == 6;
  }

  /** The servlet's switch has seven cases. */
  lemma ServletTableSize()
    ensures |ServletTypes.Keys| == 7
  {
    CommonExtensionCount();
    assert ServletTypes.Keys == CommonExtensions;
  }

  /** The raster image extensions only the filter's table names. */
  const RasterExtensions: set<string> := {"gif", "jpg", "jpeg", "png", "webp"}

  lemma RasterExtensionCount()
    ensures |RasterExtensions| == 5
  {
    assert RasterExtensions == {"gif"} + {"jpg"} + {"jpeg"} + {"png"} + {"webp"};
    assert |{"gif"} + {"jpg"}| == 2;
    assert |{"gif"} + {"jpg"} + {"jpeg"}| == 3;
    assert |{"gif"} + {"jpg"} + {"jpeg"} + {"png"}| == 4;
  }

  /** The filter's switch has eleven cases naming twelve extensions, because jpg and
      jpeg share one case; its extensions are the servlet's plus the raster ones. */
  lemma FilterTableSize()
    ensures FilterTypes.Keys == ServletTypes.Keys + RasterExtensions
    ensures |FilterTypes.Keys| == 12
  {
    CommonExtensionCount();
    RasterExtensionCount();
    FilterKeys();
    ExtensionGroupsDisjoint();
    assert ServletTypes.Keys == CommonExtensions;
  }

  lemma FilterKeys()
    ensures FilterTypes.Keys == CommonExtensions + RasterExtensions
  {
  }

  lemma ExtensionGroupsDisjoint()
    ensures CommonExtensions !! RasterExtensions
  {
  }

  /** Raster images resolve only under the filter's table; jpg and jpeg share one type. */
  lemma RasterImagesOnlyInFilter(stem: string, ext: string)
    requires |stem| >= 2
    requires ext in ["gif", "png", "jpg", "jpeg", "webp"]
    ensures ContentType(ServletTable, stem + "." + ext) == None
    ensures ContentType(FilterTable, stem + "." + ext).Some?
    ensures ext in ["jpg", "jpeg"] ==> ContentType(FilterTable, stem + "." + ext) == Some("image/jpeg")
  {
    ExtensionOfName(stem, ext);
    RasterKeys(ext);
  }

  lemma RasterKeys(ext: string)
    requires ext in ["gif", "png", "jpg", "jpeg", "webp"]
    ensures ext !in ServletTypes && ext in FilterTypes
    ensures ext in ["jpg", "jpeg"] ==> FilterTypes[ext] == "image/jpeg"
  {
  }

  /** The stem is measured in UTF-16 code units: one character outside the Basic
      Multilingual Plane is a long enough stem, one ordinary character is not. */
  lemma AstralStemCounts()
    ensures ContentType(FilterTable, "\U{1F600}.css") == Some("text/css")
    ensures ContentType(FilterTable, "\U{E9}.css") == None
  {
    var astral := "\U{1F600}.css";
    AstralCharIsTwoUnits('\U{1F600}');
    assert astral[..1] == ['\U{1F600}'] && astral[1] == '.' && astral[2..] == "css";
    assert "\U{E9}.css"[1] == '.' && "\U{E9}.css"[..1] == "\U{E9}";
  }

  /** Extensions are matched case-sensitively: `STYLE.CSS` has no type. */
  lemma ExtensionIsCaseSensitive(table: MimeTable)
    ensures ContentType(table, "STYLE.CSS") == None
  {
    ExtensionOfName("STYLE", "CSS");
    UpperCaseCssUnknown(table);
  }

  lemma UpperCaseCssUnknown(table: MimeTable)
    ensures "CSS" !in Types(table)
  {
  }

  /** Fewer than two characters before the dot, or nothing after it, gives no type. */
  lemma ShortStemOrEmptyExtension(table: MimeTable)
    ensures ContentType(table, "a.css") == None
    ensures ContentType(table, ".css") == None
    ensures ContentType(table, "index.") == None
  {
    assert "a.css"[1] == '.';
    assert ".css"[0] == '.';
    assert "index."[5] == '.';
  }
}
