/** `generateBreadcrumbs` of
    `apps/web/components/shared/RouterBreadcrumbs/RouterBreadcrumbs.tsx`:
    the route path is split on '/', the empty pieces are dropped, and the
    rest are folded into crumbs whose link extends the previous crumb's
    link by one segment. A crumb is a link unless its position equals the
    number of raw pieces minus two. */
module Breadcrumbs {
  import opened Strings

  datatype Crumb = Crumb(title: string, href: string, enabled: bool)

  /** `filter((item) => item !== "")`: the non-empty pieces, in order. */
  function NonEmpty(parts: seq<string>): (r: seq<string>)
    ensures |r| <= |parts|
    ensures forall i :: 0 <= i < |r| ==> r[i] != ""
    ensures forall x :: x in r <==> x in parts && x != ""
    ensures (forall i :: 0 <= i < |parts| ==> parts[i] != "") ==> r == parts
  {
    if |parts| == 0 then []
    else
      var rest := NonEmpty(parts[1..]);
      assert forall x :: x in parts <==> x == parts[0] || x in parts[1..];
      if parts[0] == "" then rest else [parts[0]] + rest
  }

  /** Filtering a concatenation filters each part: the pieces keep their
      order and each non-empty one appears as often as in the input. */
  lemma {:induction false} NonEmptyConcat(a: seq<string>, b: seq<string>)
    ensures NonEmpty(a + b) == NonEmpty(a) + NonEmpty(b)
  {
    if |a| > 0 {
      assert (a + b)[0] == a[0] && (a + b)[1..] == a[1..] + b;
      NonEmptyConcat(a[1..], b);
    } else {
      assert a + b == b;
    }
  }

  /** A single piece is kept exactly when it is not empty. */
  lemma NonEmptyOne(x: string)
    ensures NonEmpty([x]) == if x == "" then [] else [x]
  {
    assert [x][1..] == [];
  }

  /** The fold from the left: `rawCount` is the number of raw pieces, the
      length the `enabled` test compares against. */
  function Crumbs(segments: seq<string>, rawCount: int): (r: seq<Crumb>)
    ensures |r| == |segments|
  {
    if |segments| == 0 then []
    else
      var prev := Crumbs(segments[..|segments| - 1], rawCount);
      var curr := segments[|segments| - 1];
      var href := if |prev| > 0 then prev[|prev| - 1].href + "/" + curr else "/" + curr;
      prev + [Crumb(curr, href, |segments| - 1 != rawCount - 2)]
  }

  function GenerateBreadcrumbs(path: string): seq<Crumb>
  {
    Crumbs(NonEmpty(Split(path, '/')), |Split(path, '/')|)
  }

  lemma {:induction false} JoinAppend(parts: seq<string>, x: string, sep: char)
    requires |parts| >= 1
    ensures Join(parts + [x], sep) == Join(parts, sep) + [sep] + x
  {
    if |parts| > 1 {
      assert (parts + [x])[1..] == parts[1..] + [x];
      JoinAppend(parts[1..], x, sep);
    }
  }

  /** What crumb `i` holds: segment `i` as title, a link to the first
      `i + 1` segments each preceded by '/', and enabled exactly when `i`
      is not the raw piece count minus two. */
  predicate CrumbAt(r: seq<Crumb>, segments: seq<string>, rawCount: int, i: int)
    requires 0 <= i < |r| && |r| == |segments|
  {
    && r[i].title == segments[i]
    && r[i].href == "/" + Join(segments[..i + 1], '/')
    && (r[i].enabled <==> i != rawCount - 2)
  }

  lemma LastCrumb(segments: seq<string>, rawCount: int)
    requires |segments| > 0
    requires |segments| > 1 ==> CrumbAt(Crumbs(segments[..|segments| - 1], rawCount), segments[..|segments| - 1], rawCount, |segments| - 2)
    ensures CrumbAt(Crumbs(segments, rawCount), segments, rawCount, |segments| - 1)
  {
    var n := |segments|;
    var front, last := segments[..n - 1], segments[n - 1];
    var prev := Crumbs(front, rawCount);
    var r := Crumbs(segments, rawCount);
    assert r[n - 1].title == last && (r[n - 1].enabled <==> n - 1 != rawCount - 2);
    assert segments[..n] == front + [last];
    if n == 1 {
      assert r[0].href == "/" + last;
    } else {
      assert r[n - 1].href == prev[n - 2].href + "/" + last;
      assert front[..n - 1] == front;
      JoinAppend(front, last, '/');
    }
  }

  /** Every crumb holds what `CrumbAt` says. */
  lemma {:induction false} CrumbsMeaning(segments: seq<string>, rawCount: int)
    ensures forall i :: 0 <= i < |segments| ==> CrumbAt(Crumbs(segments, rawCount), segments, rawCount, i)
  {
    if |segments| > 0 {
      var n := |segments|;
      var front := segments[..n - 1];
      CrumbsMeaning(front, rawCount);
      LastCrumb(segments, rawCount);
      var prev := Crumbs(front, rawCount);
      var r := Crumbs(segments, rawCount);
      forall i | 0 <= i < n - 1
        ensures CrumbAt(r, segments, rawCount, i)
      {
        assert CrumbAt(prev, front, rawCount, i);
        assert r[i] == prev[i];
        assert front[..i + 1] == segments[..i + 1];
      }
    }
  }

  /** Each crumb's link extends the previous one's by '/' and its own
      title, and the first is '/' followed by its title. */
  lemma HrefChain(path: string)
    ensures var r := GenerateBreadcrumbs(path);
            && (|r| > 0 ==> r[0].href == "/" + r[0].title)
            && (forall i :: 0 < i < |r| ==> r[i].href == r[i - 1].href + "/" + r[i].title)
  {
    var segments := NonEmpty(Split(path, '/'));
    var r := GenerateBreadcrumbs(path);
    CrumbsMeaning(segments, |Split(path, '/')|);
    if |r| > 0 {
      assert CrumbAt(r, segments, |Split(path, '/')|, 0);
      assert segments[..1] == [segments[0]];
    }
    forall i | 0 < i < |r| ensures r[i].href == r[i - 1].href + "/" + r[i].title {
      assert CrumbAt(r, segments, |Split(path, '/')|, i);
      assert CrumbAt(r, segments, |Split(path, '/')|, i - 1);
      assert segments[..i + 1] == segments[..i] + [segments[i]];
      JoinAppend(segments[..i], segments[i], '/');
    }
  }

  /** The link splits back into an empty piece and the crumb's segments:
      the link is the path of the first `i + 1` non-empty pieces. */
  lemma HrefSplitsBack(path: string, i: int)
    requires 0 <= i < |GenerateBreadcrumbs(path)|
    ensures var segments := NonEmpty(Split(path, '/'));
            Split(GenerateBreadcrumbs(path)[i].href, '/') == [""] + segments[..i + 1]
  {
    var segments := NonEmpty(Split(path, '/'));
    CrumbsMeaning(segments, |Split(path, '/')|);
    assert CrumbAt(GenerateBreadcrumbs(path), segments, |Split(path, '/')|, i);
    var j := Join(segments[..i + 1], '/');
    var pre := segments[..i + 1];
    forall k | 0 <= k < |pre| ensures '/' !in pre[k] {
      assert pre[k] in Split(path, '/');
    }
    SplitJoin(pre, '/');
    SplitCons("", '/', j);
    assert "/" + j == "" + ['/'] + j;
  }

  /** For a path that starts with '/' and has no empty piece after it, the
      last crumb alone is disabled. */
  lemma OnlyLastDisabled(path: string, segments: seq<string>)
    requires Split(path, '/') == [""] + segments
    requires forall i :: 0 <= i < |segments| ==> segments[i] != ""
    ensures var r := GenerateBreadcrumbs(path);
            |r| == |segments| && forall i :: 0 <= i < |r| ==> (r[i].enabled <==> i != |r| - 1)
  {
    assert NonEmpty([""] + segments) == NonEmpty(segments) by {
      assert ([""] + segments)[1..] == segments;
    }
    CrumbsMeaning(segments, |segments| + 1);
    var r := GenerateBreadcrumbs(path);
    forall i | 0 <= i < |r| ensures r[i].enabled <==> i != |r| - 1 {
      assert CrumbAt(r, segments, |segments| + 1, i);
    }
  }

  /** With a trailing '/', the raw piece count is one higher, so every
      crumb is a link, the last one included. */
  lemma TrailingSlashEnablesAll(path: string, segments: seq<string>)
    requires Split(path, '/') == [""] + segments + [""]
    requires forall i :: 0 <= i < |segments| ==> segments[i] != ""
    ensures var r := GenerateBreadcrumbs(path);
            |r| == |segments| && forall i :: 0 <= i < |r| ==> r[i].enabled
  {
    var raw := [""] + segments + [""];
    assert NonEmpty(raw) == segments by {
      assert raw[1..] == segments + [""];
      NonEmptyDropsTrailing(segments);
    }
    CrumbsMeaning(segments, |segments| + 2);
    var r := GenerateBreadcrumbs(path);
    forall i | 0 <= i < |r| ensures r[i].enabled {
      assert CrumbAt(r, segments, |segments| + 2, i);
    }
  }

  lemma {:induction false} NonEmptyDropsTrailing(segments: seq<string>)
    requires forall i :: 0 <= i < |segments| ==> segments[i] != ""
    ensures NonEmpty(segments + [""]) == segments
  {
    if |segments| > 0 {
      assert (segments + [""])[1..] == segments[1..] + [""];
      NonEmptyDropsTrailing(segments[1..]);
    }
  }

  /** The empty path and the root path give no crumbs. */
  lemma RootHasNoCrumbs()
    ensures GenerateBreadcrumbs("") == []
    ensures GenerateBreadcrumbs("/") == []
  {
    assert "/"[1..] == "";
  }
}
