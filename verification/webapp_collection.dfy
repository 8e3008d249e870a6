/** `WebappCollection`: the mounts sorted by `comparing(Webapp::path).reversed()`,
    and the first-match routing `doFilter` performs over that order. */
module WebappCollection {
  import opened Wrappers
  import opened JavaString
  import opened Webapps

  /** `a` may come before `b` in the reversed natural order of their paths. */
  predicate PrecedesOrTies(a: Webapp, b: Webapp) {
    CompareTo(a.path, b.path) >= 0
  }

  /** Paths never increase, in Java's `String.compareTo` order, along the sequence. */
  predicate Sorted(ws: seq<Webapp>) {
    forall i, j :: 0 <= i < j < |ws| ==> PrecedesOrTies(ws[i], ws[j])
  }

  /** Insert `w` behind every mount whose path is not smaller than its own. */
  function Insert(w: Webapp, ws: seq<Webapp>): (r: seq<Webapp>)
    requires Sorted(ws)
    ensures Sorted(r)
    ensures multiset(r) == multiset(ws) + multiset{w}
  {
    if |ws| == 0 then [w]
    else if CompareTo(w.path, ws[0].path) > 0 then
      AboveHeadIsAboveAll(w, ws);
      [w] + ws
    else
      var rest := Insert(w, ws[1..]);
      CompareToAntisymmetric(w.path, ws[0].path);
      HeadAboveInserted(ws, w, rest);
      assert ws == [ws[0]] + ws[1..];
      [ws[0]] + rest
  }

  lemma AboveHeadIsAboveAll(w: Webapp, ws: seq<Webapp>)
    requires Sorted(ws) && |ws| > 0 && CompareTo(w.path, ws[0].path) > 0
    ensures Sorted([w] + ws)
  {
    forall j | 0 <= j < |ws| ensures PrecedesOrTies(w, ws[j]) {
      if j > 0 {
        CompareToTransitive(w.path, ws[0].path, ws[j].path);
      }
    }
    var r := [w] + ws;
    forall i, j | 0 <= i < j < |r| ensures PrecedesOrTies(r[i], r[j]) {
      assert r[j] == ws[j - 1];
      if i > 0 {
        assert r[i] == ws[i - 1];
      }
    }
  }

  lemma HeadAboveInserted(ws: seq<Webapp>, w: Webapp, rest: seq<Webapp>)
    requires Sorted(ws) && |ws| > 0 && PrecedesOrTies(ws[0], w)
    requires Sorted(rest) && multiset(rest) == multiset(ws[1..]) + multiset{w}
    ensures Sorted([ws[0]] + rest)
  {
    forall j | 0 <= j < |rest| ensures PrecedesOrTies(ws[0], rest[j]) {
      var x := rest[j];
      assert x in multiset(rest);
      if x != w {
        assert x in multiset(ws[1..]);
        var k :| 0 <= k < |ws[1..]| && ws[1..][k] == x;
        assert ws[k + 1] == x;
      }
    }
    var r := [ws[0]] + rest;
    forall i, j | 0 <= i < j < |r| ensures PrecedesOrTies(r[i], r[j]) {
      assert r[j] == rest[j - 1];
      if i > 0 {
        assert r[i] == rest[i - 1];
      }
    }
  }

  /** The mount order: a stable insertion sort on reversed path order, so a path
      comes before every proper prefix of it. */
  function SortMounts(ws: seq<Webapp>): (r: seq<Webapp>)
    ensures Sorted(r)
    ensures multiset(r) == multiset(ws)
  {
    if |ws| == 0 then []
    else
      var init := ws[..|ws| - 1];
      assert ws == init + [ws[|ws| - 1]];
      Insert(ws[|ws| - 1], SortMounts(init))
  }

  /** `stream().filter(w -> uri.startsWith(w.path())).findFirst()`. */
  function Route(ws: seq<Webapp>, uri: string): (r: Option<Webapp>)
    ensures r.None? <==> forall i :: 0 <= i < |ws| ==> !(ws[i].path <= uri)
    ensures r.Some? ==> r.value in ws && r.value.path <= uri
  {
    if |ws| == 0 then None
    else if ws[0].path <= uri then Some(ws[0])
    else
      var r := Route(ws[1..], uri);
      assert forall i :: 0 < i < |ws| ==> ws[i] == ws[1..][i - 1];
      r
  }

  /** On a sorted collection the first mount whose path prefixes the URI has the longest
      such path: every other matching mount path is a prefix of it. */
  lemma {:induction false} RouteFindsLongestMatch(ws: seq<Webapp>, uri: string)
    requires Sorted(ws)
    requires Route(ws, uri).Some?
    ensures forall i :: 0 <= i < |ws| && ws[i].path <= uri ==> ws[i].path <= Route(ws, uri).value.path
    ensures forall i :: 0 <= i < |ws| && ws[i].path <= uri ==> |ws[i].path| <= |Route(ws, uri).value.path|
  {
    var w := Route(ws, uri).value;
    if ws[0].path <= uri {
      forall i | 0 <= i < |ws| && ws[i].path <= uri
        ensures ws[i].path <= w.path
      {
        PrefixesAreNested(ws[i].path, w.path, uri);
        if i > 0 && w.path <= ws[i].path && w.path != ws[i].path {
          ProperPrefixIsLess(w.path, ws[i].path);
        }
      }
    } else {
      var tail := ws[1..];
      assert Sorted(tail) by {
        forall i, j | 0 <= i < j < |tail| ensures PrecedesOrTies(tail[i], tail[j]) {
          assert tail[i] == ws[i + 1] && tail[j] == ws[j + 1];
        }
      }
      RouteFindsLongestMatch(tail, uri);
      forall i | 0 <= i < |ws| && ws[i].path <= uri
        ensures ws[i].path <= w.path
      {
        assert i > 0;
        assert ws[i] == tail[i - 1];
      }
    }
  }

  /** Routing through the sorted order picks the longest matching mount path of the
      mounts as discovered, whatever their discovery order. */
  lemma SortedRoutingIsLongestPrefix(ws: seq<Webapp>, uri: string)
    ensures Route(SortMounts(ws), uri).None? <==> forall w :: w in ws ==> !(w.path <= uri)
    ensures Route(SortMounts(ws), uri).Some? ==>
              var chosen := Route(SortMounts(ws), uri).value;
              && chosen in ws && chosen.path <= uri
              && forall w :: w in ws && w.path <= uri ==> w.path <= chosen.path
  {
    var sorted := SortMounts(ws);
    assert forall w :: w in ws <==> w in sorted by {
      forall w ensures w in ws <==> w in sorted {
        assert w in ws <==> w in multiset(ws);
        assert w in sorted <==> w in multiset(sorted);
      }
    }
    if Route(sorted, uri).Some? {
      RouteFindsLongestMatch(sorted, uri);
    }
  }

  /** Nested mounts: `/app/admin/x` goes to `/app/admin`, `/app/other` to `/app`. */
  lemma NestedMountsExample(app: Webapp, admin: Webapp)
    requires app.path == "/app" && admin.path == "/app/admin"
    ensures Route(SortMounts([app, admin]), "/app/admin/x") == Some(admin)
    ensures Route(SortMounts([app, admin]), "/app/other") == Some(app)
  {
    assert "/app" <= "/app/admin/x" && "/app/admin" <= "/app/admin/x";
    SortedRoutingIsLongestPrefix([app, admin], "/app/admin/x");
    assert !("/app/admin" <= "/app");
    assert "/app/admin"[5] != "/app/other"[5];
    assert "/app" <= "/app/other" && !("/app/admin" <= "/app/other");
    SortedRoutingIsLongestPrefix([app, admin], "/app/other");
  }

  /** The order is not by length: `/b` precedes the longer `/a/long`. Harmless,
      since only paths that are prefixes of one another can match the same URI. */
  lemma ReverseOrderIsNotByLength(long: Webapp, short: Webapp)
    requires long.path == "/a/long" && short.path == "/b"
    ensures SortMounts([long, short]) == [short, long]
  {
    assert CompareTo("/b", "/a/long") > 0;
    assert [long, short][..1] == [long];
  }
}
