/** Loading a checksum manifest into an immutable catalog of static resources
    (`loadResources`, identical in the servlet and the filter apart from the
    content-type table). */
module Manifest {
  import opened Wrappers
  import opened JavaString
  import opened ContentTypes

  /** One servable file: its path relative to the resource root, its MIME type and
      the checksum served as its ETag. */
  datatype StaticResource = StaticResource(path: string, contentType: string, eTag: string)

  /** Why building a servlet or a filter aborts. Each case stands for one
      `RuntimeException` the source throws during construction. */
  datatype LoadError =
    | ManifestNotFound(file: string)
    | InvalidLine(file: string, line: string)
    | UnknownContentType(path: string)
    | DuplicateKey(path: string)
    | MissingRootResource(location: string)
    | MissingProperty(key: string)

  /** An entry the loader can produce: a resolvable type, and a path and a tag that
      are comma-free, the tag non-empty (split never returns a trailing empty field). */
  predicate ValidEntry(table: MimeTable, e: StaticResource) {
    && ContentType(table, e.path) == Some(e.contentType)
    && e.eTag != ""
    && ',' !in e.path
    && ',' !in e.eTag
  }

  /** Every entry is stored under its own path and is one the loader can produce. */
  predicate ValidCatalog(table: MimeTable, m: map<string, StaticResource>) {
    forall k :: k in m ==> m[k].path == k && ValidEntry(table, m[k])
  }

  /** The manifest line describing `e`. */
  function EntryLine(e: StaticResource): string {
    e.path + [','] + e.eTag
  }

  /** `line` is the entry's line followed by nothing but commas. */
  predicate EntryShape(e: StaticResource, line: string) {
    && EntryLine(e) <= line
    && forall k :: |EntryLine(e)| <= k < |line| ==> line[k] == ','
  }

  /** One manifest line, after `trim`: `Success(None)` for a `#` comment, the entry for
      a two-field line with a resolvable type, and otherwise the exception the loop throws. */
  function ParseLine(table: MimeTable, file: string, raw: string): (r: Result<Option<StaticResource>, LoadError>)
    ensures var line := Trim(raw);
            (r == Success(None) <==> "#" <= line)
    ensures r.Success? && r.value.Some? ==> ValidEntry(table, r.value.value)
    ensures r.Success? && r.value.Some? ==> EntryShape(r.value.value, Trim(raw))
    ensures var line := Trim(raw);
            r.Failure? ==>
              || (r.error == InvalidLine(file, line) && |Split(line, ',')| != 2)
              || (r.error.UnknownContentType? && ContentType(table, r.error.path) == None)
  {
    var line := Trim(raw);
    if "#" <= line then Success(None)
    else
      var items := Split(line, ',');
      if |items| != 2 then Failure(InvalidLine(file, line))
      else
        SplitPairShape(line, ',');
        var path := items[0];
        var eTag := items[1];
        match ContentType(table, path)
        case None => Failure(UnknownContentType(path))
        case Some(contentType) => Success(Some(StaticResource(path, contentType, eTag)))
  }

  /** What one line loads: a non-comment line that does not split into exactly two
      fields is rejected as a whole; one that does is the entry (path, type, ETag) when
      the path's extension has a type, and otherwise an error naming that path. */
  lemma ParseLineLoads(table: MimeTable, file: string, raw: string)
    ensures var line := Trim(raw);
            !("#" <= line) && |Split(line, ',')| != 2 ==>
              ParseLine(table, file, raw) == Failure(InvalidLine(file, line))
    ensures var line := Trim(raw);
            var items := Split(line, ',');
            !("#" <= line) && |items| == 2 ==>
              ParseLine(table, file, raw) == match ContentType(table, items[0])
                case None => Failure(UnknownContentType(items[0]))
                case Some(t) => Success(Some(StaticResource(items[0], t, items[1])))
  { }

  /** The read loop: the entries of all non-comment lines, in order, or the failure of
      the first line that throws. */
  function ParseLines(table: MimeTable, file: string, lines: seq<string>): (r: Result<seq<StaticResource>, LoadError>)
    ensures r.Success? ==> |r.value| <= |lines|
    ensures r.Success? ==> forall i :: 0 <= i < |r.value| ==> ValidEntry(table, r.value[i])
  {
    if |lines| == 0 then Success([])
    else
      match ParseLine(table, file, lines[0])
      case Failure(e) => Failure(e)
      case Success(None) => ParseLines(table, file, lines[1..])
      case Success(Some(entry)) =>
        match ParseLines(table, file, lines[1..])
        case Failure(e) => Failure(e)
        case Success(rest) =>
          AllValidCons(table, entry, rest);
          Success([entry] + rest)
  }

  lemma AllValidCons(table: MimeTable, entry: StaticResource, rest: seq<StaticResource>)
    requires ValidEntry(table, entry)
    requires forall i :: 0 <= i < |rest| ==> ValidEntry(table, rest[i])
    ensures forall i :: 0 <= i < |[entry] + rest| ==> ValidEntry(table, ([entry] + rest)[i])
  {
    assert forall i :: 0 < i <= |rest| ==> ([entry] + rest)[i] == rest[i - 1];
  }

  /** One turn of the read loop, given the current line's outcome and the rest's. */
  function Step(line: Result<Option<StaticResource>, LoadError>, rest: Result<seq<StaticResource>, LoadError>)
    : Result<seq<StaticResource>, LoadError>
  {
    match line
    case Failure(e) => Failure(e)
    case Success(None) => rest
    case Success(Some(entry)) =>
      match rest
      case Failure(e) => Failure(e)
      case Success(entries) => Success([entry] + entries)
  }

  lemma ParseLinesUnfold(table: MimeTable, file: string, lines: seq<string>)
    requires |lines| > 0
    ensures ParseLines(table, file, lines) == Step(ParseLine(table, file, lines[0]), ParseLines(table, file, lines[1..]))
  {
  }

  /** `whole` is what reading a block with outcome `first` and then a block with
      outcome `second` yields. */
  predicate Appended(first: Result<seq<StaticResource>, LoadError>, second: Result<seq<StaticResource>, LoadError>,
                     whole: Result<seq<StaticResource>, LoadError>) {
    && (first.Failure? ==> whole == first)
    && (first.Success? ==>
          whole == match second
                   case Failure(e) => Failure(e)
                   case Success(y) => Success(first.value + y))
  }

  lemma StepAppended(line: Result<Option<StaticResource>, LoadError>, rest: Result<seq<StaticResource>, LoadError>,
                     second: Result<seq<StaticResource>, LoadError>, restThenSecond: Result<seq<StaticResource>, LoadError>)
    requires Appended(rest, second, restThenSecond)
    ensures Appended(Step(line, rest), second, Step(line, restThenSecond))
  {
    if line.Success? && line.value.Some? && rest.Success? && second.Success? {
      assert [line.value.value] + rest.value + second.value == [line.value.value] + (rest.value + second.value);
    }
  }

  /** Reading two blocks of lines one after the other: the first block's failure stops
      the loop; otherwise the entries are the first block's followed by the second's, or
      the second block's failure. */
  lemma {:induction false} ParseLinesAppend(table: MimeTable, file: string, a: seq<string>, b: seq<string>)
    ensures ParseLines(table, file, a).Failure? ==> ParseLines(table, file, a + b) == ParseLines(table, file, a)
    ensures ParseLines(table, file, a).Success? ==>
              ParseLines(table, file, a + b) ==
                match ParseLines(table, file, b)
                case Failure(e) => Failure(e)
                case Success(y) => Success(ParseLines(table, file, a).value + y)
  {
    ParseLinesAppended(table, file, a, b);
  }

  lemma {:induction false} ParseLinesAppended(table: MimeTable, file: string, a: seq<string>, b: seq<string>)
    ensures Appended(ParseLines(table, file, a), ParseLines(table, file, b), ParseLines(table, file, a + b))
  {
    if |a| == 0 {
      assert a + b == b;
      if ParseLines(table, file, b).Success? {
        assert [] + ParseLines(table, file, b).value == ParseLines(table, file, b).value;
      }
    } else {
      assert (a + b)[0] == a[0];
      assert (a + b)[1..] == a[1..] + b;
      ParseLinesUnfold(table, file, a);
      ParseLinesUnfold(table, file, a + b);
      ParseLinesAppended(table, file, a[1..], b);
      StepAppended(ParseLine(table, file, a[0]), ParseLines(table, file, a[1..]),
                   ParseLines(table, file, b), ParseLines(table, file, a[1..] + b));
    }
  }

  /** The loop fails iff some line fails. */
  lemma {:induction false} ParseLinesFailsIffSomeLineFails(table: MimeTable, file: string, lines: seq<string>)
    ensures ParseLines(table, file, lines).Failure? <==>
              exists i :: 0 <= i < |lines| && ParseLine(table, file, lines[i]).Failure?
  {
    if |lines| > 0 {
      var tail := lines[1..];
      if ParseLine(table, file, lines[0]).Failure? {
        assert ParseLines(table, file, lines).Failure?;
      } else {
        ParseLinesFailsIffSomeLineFails(table, file, tail);
        assert forall i :: 0 < i < |lines| ==> lines[i] == tail[i - 1];
        assert ParseLines(table, file, lines).Failure? == ParseLines(table, file, tail).Failure?;
      }
    }
  }

  /** Line `i` is the first line that fails, and it fails with `e`. */
  predicate FirstFailureAt(table: MimeTable, file: string, lines: seq<string>, i: int, e: LoadError) {
    && 0 <= i < |lines|
    && ParseLine(table, file, lines[i]) == Failure(e)
    && forall j :: 0 <= j < i ==> ParseLine(table, file, lines[j]).Success?
  }

  /** A failing loop reports the error of its first failing line; every line before
      that one is a comment or an entry. */
  lemma {:induction false} ParseLinesFailsAtFirstBadLine(table: MimeTable, file: string, lines: seq<string>)
    requires ParseLines(table, file, lines).Failure?
    ensures exists i :: FirstFailureAt(table, file, lines, i, ParseLines(table, file, lines).error)
  {
    var e := ParseLines(table, file, lines).error;
    if ParseLine(table, file, lines[0]).Failure? {
      assert FirstFailureAt(table, file, lines, 0, e);
    } else {
      var tail := lines[1..];
      assert ParseLines(table, file, tail) == Failure(e);
      ParseLinesFailsAtFirstBadLine(table, file, tail);
      var i :| FirstFailureAt(table, file, tail, i, e);
      FirstFailureShifts(table, file, lines, i, e);
    }
  }

  lemma FirstFailureShifts(table: MimeTable, file: string, lines: seq<string>, i: int, e: LoadError)
    requires |lines| > 0 && ParseLine(table, file, lines[0]).Success?
    requires FirstFailureAt(table, file, lines[1..], i, e)
    ensures FirstFailureAt(table, file, lines, i + 1, e)
  {
    assert lines[i + 1] == lines[1..][i];
    AllBeforeShift(l => ParseLine(table, file, l).Success?, lines, i);
  }

  /** A property of the head and of the first `i` elements of the tail holds of the
      first `i + 1` elements. */
  lemma AllBeforeShift<T>(p: T -> bool, xs: seq<T>, i: nat)
    requires 0 < |xs| && i < |xs| && p(xs[0])
    requires forall j :: 0 <= j < i ==> p(xs[1..][j])
    ensures forall j :: 0 <= j < i + 1 ==> p(xs[j])
  {
    forall j | 0 < j < i + 1
      ensures p(xs[j])
    {
      assert xs[j] == xs[1..][j - 1];
    }
  }

  /** No two entries share a path. */
  predicate DistinctPaths(entries: seq<StaticResource>) {
    forall i, j :: 0 <= i < j < |entries| ==> entries[i].path != entries[j].path
  }

  function Paths(entries: seq<StaticResource>): set<string> {
    set i | 0 <= i < |entries| :: entries[i].path
  }

  /** Guava's `ImmutableMap.Builder.build`: the entries keyed by path, or a failure
      at the first entry whose path repeats an earlier one. */
  function BuildMap(entries: seq<StaticResource>): (r: Result<map<string, StaticResource>, LoadError>)
    ensures r.Success? ==> r.value.Keys == Paths(entries)
    ensures r.Success? ==> forall i :: 0 <= i < |entries| ==> r.value[entries[i].path] == entries[i]
    ensures r.Failure? ==> r.error.DuplicateKey? && r.error.path in Paths(entries)
  {
    if |entries| == 0 then Success(map[])
    else
      var init := entries[..|entries| - 1];
      var last := entries[|entries| - 1];
      match BuildMap(init)
      case Failure(e) =>
        assert Paths(init) <= Paths(entries) by {
          forall i | 0 <= i < |init| ensures init[i].path in Paths(entries) {
            assert init[i] == entries[i];
          }
        }
        Failure(e)
      case Success(m) =>
        if last.path in m then Failure(DuplicateKey(last.path))
        else
          assert Paths(entries) == Paths(init) + {last.path} by {
            forall i | 0 <= i < |init| ensures init[i] == entries[i] {}
          }
          Success(m[last.path := last])
  }

  lemma DistinctSnoc(init: seq<StaticResource>, last: StaticResource)
    ensures DistinctPaths(init + [last]) <==> DistinctPaths(init) && last.path !in Paths(init)
  {
    var all := init + [last];
    assert forall i :: 0 <= i < |init| ==> all[i] == init[i];
    assert all[|init|] == last;
    if DistinctPaths(all) {
      forall i | 0 <= i < |init| ensures init[i].path != last.path {
        assert all[i].path != all[|init|].path;
      }
    }
  }

  /** The build succeeds exactly when no path repeats. */
  lemma {:induction false} BuildMapSucceedsIffDistinct(entries: seq<StaticResource>)
    ensures BuildMap(entries).Success? <==> DistinctPaths(entries)
  {
    if |entries| > 0 {
      var j := |entries| - 1;
      var init := entries[..j];
      BuildMapSucceedsIffDistinct(init);
      assert entries == init + [entries[j]];
      DistinctSnoc(init, entries[j]);
    }
  }

  /** A failing build names the path of the first entry that repeats an earlier path. */
  lemma {:induction false} BuildMapReportsFirstDuplicate(entries: seq<StaticResource>)
    requires BuildMap(entries).Failure?
    ensures exists j :: 0 <= j < |entries| && entries[j].path == BuildMap(entries).error.path
                        && DistinctPaths(entries[..j])
                        && exists i :: 0 <= i < j && entries[i].path == entries[j].path
  {
    var j := |entries| - 1;
    var init := entries[..j];
    var last := entries[j];
    assert forall i :: 0 <= i < j ==> entries[i] == init[i];
    if BuildMap(init).Failure? {
      BuildMapReportsFirstDuplicate(init);
      var j0 :| 0 <= j0 < |init| && init[j0].path == BuildMap(init).error.path
                && DistinctPaths(init[..j0])
                && exists i :: 0 <= i < j0 && init[i].path == init[j0].path;
      assert init[..j0] == entries[..j0];
    } else {
      BuildMapSucceedsIffDistinct(init);
      var i :| 0 <= i < |init| && init[i].path == last.path;
      assert entries[..j] == init;
    }
  }

  /** `loadResources(file)`: read the manifest from the classpath, parse every line, then
      build the immutable map. A line failure wins over a duplicate key, because the
      map is only built after the loop. */
  function LoadResources(table: MimeTable, classpath: string -> Option<seq<string>>, file: string)
    : (r: Result<map<string, StaticResource>, LoadError>)
    ensures classpath(file).None? ==> r == Failure(ManifestNotFound(file))
    ensures r.Success? ==> ValidCatalog(table, r.value)
  {
    match classpath(file)
    case None => Failure(ManifestNotFound(file))
    case Some(lines) =>
      match ParseLines(table, file, lines)
      case Failure(e) => Failure(e)
      case Success(entries) =>
        var r := BuildMap(entries);
        if r.Success? then
          assert forall k :: k in r.value ==> exists i :: 0 <= i < |entries| && entries[i].path == k;
          r
        else r
  }

  /** A path and tag whose line survives `trim` unchanged, is not a comment and splits
      back into exactly those two fields. */
  predicate WellShaped(e: StaticResource) {
    && |e.path| > 0 && e.path[0] != '#' && !IsTrimmable(e.path[0])
    && e.eTag != "" && !IsTrimmable(e.eTag[|e.eTag| - 1])
    && ',' !in e.path && ',' !in e.eTag
  }

  /** An entry whose manifest line loads back into that very entry. */
  predicate Renderable(table: MimeTable, e: StaticResource) {
    WellShaped(e) && ContentType(table, e.path) == Some(e.contentType)
  }

  /** A well-shaped line loads as its path and tag when the table knows the path's
      extension, and otherwise fails naming the path. */
  lemma ParseShapedLine(table: MimeTable, file: string, e: StaticResource)
    requires WellShaped(e)
    ensures ParseLine(table, file, EntryLine(e)) ==
              match ContentType(table, e.path)
              case None => Failure(UnknownContentType(e.path))
              case Some(t) => Success(Some(StaticResource(e.path, t, e.eTag)))
  {
    var line := EntryLine(e);
    assert line[0] == e.path[0] && line[|line| - 1] == e.eTag[|e.eTag| - 1];
    assert Trim(line) == line;
    assert line[0] != '#';
    SplitPair(e.path, e.eTag, ',', 0);
    assert line + Repeat(',', 0) == line;
  }

  /** The manifest listing `entries` one per line, in order. */
  function RenderManifest(entries: seq<StaticResource>): (lines: seq<string>)
    ensures |lines| == |entries|
  {
    if |entries| == 0 then [] else [EntryLine(entries[0])] + RenderManifest(entries[1..])
  }

  lemma ParseEntryLine(table: MimeTable, file: string, e: StaticResource)
    requires Renderable(table, e)
    ensures ParseLine(table, file, EntryLine(e)) == Success(Some(e))
  {
    ParseShapedLine(table, file, e);
  }

  /** A line that loads as an entry puts that entry in front of the rest's entries. */
  lemma ParseLinesEntry(table: MimeTable, file: string, lines: seq<string>, e: StaticResource, rest: seq<StaticResource>)
    requires |lines| > 0 && ParseLine(table, file, lines[0]) == Success(Some(e))
    requires ParseLines(table, file, lines[1..]) == Success(rest)
    ensures ParseLines(table, file, lines) == Success([e] + rest)
  {
  }

  lemma {:induction false} ParseRendered(table: MimeTable, file: string, entries: seq<StaticResource>)
    requires forall i :: 0 <= i < |entries| ==> Renderable(table, entries[i])
    ensures ParseLines(table, file, RenderManifest(entries)) == Success(entries)
  {
    if |entries| > 0 {
      assert forall i :: 0 <= i < |entries| - 1 ==> entries[1..][i] == entries[i + 1];
      ParseRendered(table, file, entries[1..]);
      ParseRenderedStep(table, file, entries);
    }
  }

  lemma ParseRenderedStep(table: MimeTable, file: string, entries: seq<StaticResource>)
    requires |entries| > 0 && Renderable(table, entries[0])
    requires ParseLines(table, file, RenderManifest(entries[1..])) == Success(entries[1..])
    ensures ParseLines(table, file, RenderManifest(entries)) == Success(entries)
  {
    var lines := RenderManifest(entries);
    ParseEntryLine(table, file, entries[0]);
    assert lines[1..] == RenderManifest(entries[1..]);
    ParseLinesEntry(table, file, lines, entries[0], entries[1..]);
    assert [entries[0]] + entries[1..] == entries;
  }

  /** Round trip: a manifest rendered from well-formed entries loads back into exactly
      those entries, and it loads iff no path repeats. */
  lemma LoadRenderedManifest(table: MimeTable, classpath: string -> Option<seq<string>>, file: string,
                             entries: seq<StaticResource>)
    requires classpath(file) == Some(RenderManifest(entries))
    requires forall i :: 0 <= i < |entries| ==> Renderable(table, entries[i])
    ensures LoadResources(table, classpath, file) == BuildMap(entries)
    ensures BuildMap(entries).Success? <==> DistinctPaths(entries)
  {
    ParseRendered(table, file, entries);
    LoadParsed(table, classpath, file, RenderManifest(entries), entries);
    BuildMapSucceedsIffDistinct(entries);
  }

  /** At most one line is the first to fail. */
  lemma FirstFailureIsUnique(table: MimeTable, file: string, lines: seq<string>,
                             i: int, e: LoadError, i': int, e': LoadError)
    requires FirstFailureAt(table, file, lines, i, e)
    requires FirstFailureAt(table, file, lines, i', e')
    ensures i == i' && e == e'
  {
  }

  /** The error of the first failing line is what the load throws, whatever the rest
      of the file holds and even when paths repeat: the map is only built after the
      loop has read every line. */
  lemma LineErrorWins(table: MimeTable, classpath: string -> Option<seq<string>>, file: string,
                      lines: seq<string>, i: int, e: LoadError)
    requires classpath(file) == Some(lines)
    requires FirstFailureAt(table, file, lines, i, e)
    ensures LoadResources(table, classpath, file) == Failure(e)
  {
    ParseLinesFailsIffSomeLineFails(table, file, lines);
    ParseLinesFailsAtFirstBadLine(table, file, lines);
    var i' :| FirstFailureAt(table, file, lines, i', ParseLines(table, file, lines).error);
    FirstFailureIsUnique(table, file, lines, i, e, i', ParseLines(table, file, lines).error);
  }

  /** A found manifest loads iff every line is a comment or an entry and no two entries
      share a path; the loaded map is then keyed by exactly the entries' paths. */
  lemma LoadSucceedsIff(table: MimeTable, classpath: string -> Option<seq<string>>, file: string,
                        lines: seq<string>)
    requires classpath(file) == Some(lines)
    ensures var parsed := ParseLines(table, file, lines);
            LoadResources(table, classpath, file).Success? <==> parsed.Success? && DistinctPaths(parsed.value)
    ensures ParseLines(table, file, lines).Success? <==>
              forall i :: 0 <= i < |lines| ==> ParseLine(table, file, lines[i]).Success?
    ensures LoadResources(table, classpath, file).Success? ==>
              LoadResources(table, classpath, file).value.Keys == Paths(ParseLines(table, file, lines).value)
  {
    ParseLinesFailsIffSomeLineFails(table, file, lines);
    if ParseLines(table, file, lines).Success? {
      BuildMapSucceedsIffDistinct(ParseLines(table, file, lines).value);
    }
  }

  lemma LoadParsed(table: MimeTable, classpath: string -> Option<seq<string>>, file: string,
                   lines: seq<string>, entries: seq<StaticResource>)
    requires classpath(file) == Some(lines) && ParseLines(table, file, lines) == Success(entries)
    ensures LoadResources(table, classpath, file) == BuildMap(entries)
  {
  }

  /** Lines that trim to a `#`-prefixed string are skipped. */
  lemma CommentLineSkipped(table: MimeTable, file: string, comment: string, lines: seq<string>)
    requires "#" <= Trim(comment)
    ensures ParseLines(table, file, [comment] + lines) == ParseLines(table, file, lines)
  {
    assert ([comment] + lines)[1..] == lines;
  }

  /** A blank (or all-whitespace) line is not skipped: `"".split(",")` has one field, so
      the load fails at that line unless an earlier line already failed. */
  lemma BlankLineFails(table: MimeTable, file: string, blank: string, lines: seq<string>)
    requires forall k :: 0 <= k < |blank| ==> IsTrimmable(blank[k])
    ensures ParseLines(table, file, [blank] + lines) == Failure(InvalidLine(file, ""))
  {
    assert Trim(blank) == "";
  }

  /** Trailing commas are dropped by `split`, so `a.css,t,` loads like `a.css,t`. */
  lemma TrailingCommaTolerated(table: MimeTable, file: string, e: StaticResource, n: nat)
    requires Renderable(table, e)
    ensures ParseLine(table, file, EntryLine(e) + Repeat(',', n)) == Success(Some(e))
  {
    var line := EntryLine(e) + Repeat(',', n);
    assert line[0] == e.path[0];
    if n == 0 {
      assert line == EntryLine(e);
      ParseEntryLine(table, file, e);
    } else {
      assert line[|line| - 1] == ',';
      assert Trim(line) == line;
      SplitPair(e.path, e.eTag, ',', n);
    }
  }

  /** `style.css,abc123` loads as a text/css resource tagged `abc123`, under either table. */
  lemma StylesheetLineExample(table: MimeTable, file: string)
    ensures ParseLine(table, file, "style.css,abc123") == Success(Some(StaticResource("style.css", "text/css", "abc123")))
  {
    StylesheetLine();
    StylesheetEntryParses(table, file);
  }

  lemma StylesheetEntryParses(table: MimeTable, file: string)
    ensures var e := StaticResource("style.css", "text/css", "abc123");
            ParseLine(table, file, EntryLine(e)) == Success(Some(e))
  {
    StylesheetShaped();
    StylesheetType(table);
    ParseShapedLine(table, file, StaticResource("style.css", "text/css", "abc123"));
  }

  lemma StylesheetShaped()
    ensures WellShaped(StaticResource("style.css", "text/css", "abc123"))
  {
  }

  lemma StylesheetLine()
    ensures EntryLine(StaticResource("style.css", "text/css", "abc123")) == "style.css,abc123"
  {
  }

  lemma StylesheetType(table: MimeTable)
    ensures ContentType(table, "style.css") == Some("text/css")
  {
    ExtensionOfName("style", "css");
    assert "style" + "." + "css" == "style.css";
    assert Types(table)["css"] == "text/css";
  }

  /** `data.bin,abc123` names an extension neither table knows, so the load fails. */
  lemma UnknownExtensionExample(table: MimeTable, file: string)
    ensures ParseLine(table, file, "data.bin,abc123") == Failure(UnknownContentType("data.bin"))
  {
    BinaryLine();
    BinaryEntryFails(table, file);
  }

  lemma BinaryEntryFails(table: MimeTable, file: string)
    ensures ParseLine(table, file, EntryLine(StaticResource("data.bin", "", "abc123"))) == Failure(UnknownContentType("data.bin"))
  {
    BinaryShaped();
    BinaryHasNoType(table);
    ParseShapedLine(table, file, StaticResource("data.bin", "", "abc123"));
  }

  lemma BinaryShaped()
    ensures WellShaped(StaticResource("data.bin", "", "abc123"))
  {
  }

  lemma BinaryLine()
    ensures EntryLine(StaticResource("data.bin", "", "abc123")) == "data.bin,abc123"
  {
  }

  lemma BinaryHasNoType(table: MimeTable)
    ensures ContentType(table, "data.bin") == None
  {
    ExtensionOfName("data", "bin");
    assert "data" + "." + "bin" == "data.bin";
    assert "bin" !in Types(table);
  }

  /** Under the servlet's table a raster image line makes the load fail. */
  lemma ServletRejectsRasterImages(file: string, e: StaticResource, stem: string, ext: string)
    requires WellShaped(e) && |stem| >= 2 && e.path == stem + "." + ext
    requires ext in ["gif", "png", "jpg", "jpeg", "webp"]
    ensures ParseLine(ServletTable, file, EntryLine(e)) == Failure(UnknownContentType(e.path))
    ensures ParseLine(FilterTable, file, EntryLine(e)).Success?
  {
    RasterImagesOnlyInFilter(stem, ext);
    ParseShapedLine(ServletTable, file, e);
    ParseShapedLine(FilterTable, file, e);
  }
}
