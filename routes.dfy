/** Choosing a branch of the request handler: the route key of the path
    (app.ts:34) and the dispatch on key and method (app.ts:36-129). */
module Routes {

  predicate AllSlashes(s: string) {
    forall i | 0 <= i < |s| :: s[i] == '/'
  }

  /** `s.split('/')`: the pieces between the slashes, empty ones included;
      there is always at least one. Written from the right; the pieces are
      the same as JavaScript's left-to-right scan gives. */
  function Split(s: string): (pieces: seq<string>)
    ensures |pieces| >= 1
    ensures forall i | 0 <= i < |pieces| :: '/' !in pieces[i]
    decreases |s|
  {
    if s == [] then [""]
    else
      var init := Split(s[..|s| - 1]);
      var c := s[|s| - 1];
      if c == '/' then init + [""]
      else init[..|init| - 1] + [init[|init| - 1] + [c]]
  }

  /** `pieces.join('/')`, the inverse of `Split`. */
  function Join(pieces: seq<string>): string
    requires |pieces| >= 1
  {
    if |pieces| == 1 then pieces[0]
    else Join(pieces[..|pieces| - 1]) + "/" + pieces[|pieces| - 1]
  }

  /** Appending one character to a string, as `Split` sees it. */
  lemma SplitSnoc(p: string, c: char)
    ensures var init := Split(p);
      Split(p + [c]) == if c == '/' then init + [""] else init[..|init| - 1] + [init[|init| - 1] + [c]]
  {
    assert (p + [c])[..|p|] == p;
  }

  lemma JoinSnoc(pieces: seq<string>, x: string)
    requires |pieces| >= 1
    ensures Join(pieces + [x]) == Join(pieces) + "/" + x
  {
    assert (pieces + [x])[..|pieces|] == pieces;
  }

  lemma JoinExtendLast(pieces: seq<string>, c: char)
    requires |pieces| >= 1
    ensures var n := |pieces|;
      Join(pieces[..n - 1] + [pieces[n - 1] + [c]]) == Join(pieces) + [c]
  {
    var n := |pieces|;
    var q := pieces[..n - 1] + [pieces[n - 1] + [c]];
    if n > 1 {
      assert q[..n - 1] == pieces[..n - 1];
      var j := Join(pieces[..n - 1]);
      assert Join(q) == j + "/" + (pieces[n - 1] + [c]);
      assert Join(pieces) == j + "/" + pieces[n - 1];
      assert j + "/" + (pieces[n - 1] + [c]) == (j + "/" + pieces[n - 1]) + [c];
    }
  }

  lemma {:induction false} JoinSplit(s: string)
    ensures Join(Split(s)) == s
    decreases |s|
  {
    if s != [] {
      var p := s[..|s| - 1];
      var c := s[|s| - 1];
      assert s == p + [c];
      JoinSplit(p);
      SplitSnoc(p, c);
      if c == '/' {
        JoinSnoc(Split(p), "");
      } else {
        JoinExtendLast(Split(p), c);
      }
    }
  }

  /** `.filter(item => !!item)`: the non-empty pieces, in order. */
  function NonEmpty(pieces: seq<string>): (kept: seq<string>)
    ensures forall x :: x in kept <==> x in pieces && x != ""
    ensures |kept| <= |pieces|
  {
    if pieces == [] then []
    else
      var last := pieces[|pieces| - 1];
      NonEmpty(pieces[..|pieces| - 1]) + (if last == "" then [] else [last])
  }

  /** The filter keeps the order of the pieces: filtering a concatenation
      filters each part. */
  lemma {:induction false} NonEmptyAppend(a: seq<string>, b: seq<string>)
    ensures NonEmpty(a + b) == NonEmpty(a) + NonEmpty(b)
    decreases |b|
  {
    if b == [] {
      assert a + b == a;
    } else {
      var init := b[..|b| - 1];
      var last := b[|b| - 1];
      assert (a + b)[..|a + b| - 1] == a + init;
      NonEmptyAppend(a, init);
    }
  }

  /** `.at(-1) || ''`: the last non-empty segment of the path, or "". */
  function RouteKey(path: string): (key: string)
    ensures key != "" ==> key in Split(path)
    ensures key == "" <==> forall i | 0 <= i < |Split(path)| :: Split(path)[i] == ""
  {
    var segments := NonEmpty(Split(path));
    if segments == [] then
      assert forall i | 0 <= i < |Split(path)| :: Split(path)[i] in Split(path);
      ""
    else
      assert segments[|segments| - 1] in segments;
      segments[|segments| - 1]
  }

  /** `key` stands at `k` in `path` as its last segment: a slash (or the
      start) before it, only slashes after it. */
  predicate LastSegmentAt(path: string, key: string, k: int) {
    && 0 <= k && k + |key| <= |path|
    && path[k..k + |key|] == key
    && (k == 0 || path[k - 1] == '/')
    && AllSlashes(path[k + |key|..])
  }

  /** The final piece of a split is the slash-free tail of the string. */
  lemma {:induction false} LastPiece(s: string)
    ensures var last := Split(s)[|Split(s)| - 1];
      && |last| <= |s|
      && s[|s| - |last|..] == last
      && (|last| == |s| || s[|s| - |last| - 1] == '/')
    decreases |s|
  {
    if s != [] {
      var p := s[..|s| - 1];
      var c := s[|s| - 1];
      assert s == p + [c];
      LastPiece(p);
      SplitSnoc(p, c);
      var init := Split(p);
      var prev := init[|init| - 1];
      if c == '/' {
        assert Split(s)[|Split(s)| - 1] == "";
      } else {
        var last := prev + [c];
        assert Split(s)[|Split(s)| - 1] == last;
        assert s[|s| - |last|..] == p[|p| - |prev|..] + [c];
        assert |last| == |s| || s[|s| - |last| - 1] == p[|p| - |prev| - 1];
      }
    }
  }

  /** How the route key changes when one character is appended. */
  lemma RouteKeySnoc(p: string, c: char)
    ensures c == '/' ==> RouteKey(p + [c]) == RouteKey(p)
    ensures c != '/' ==> RouteKey(p + [c]) == Split(p)[|Split(p)| - 1] + [c]
  {
    var path := p + [c];
    assert path[..|path| - 1] == p;
    var init := Split(p);
    if c == '/' {
      assert (init + [""])[..|init|] == init;
    } else {
      var n := |init|;
      var pieces := init[..n - 1] + [init[n - 1] + [c]];
      assert pieces[..n - 1] == init[..n - 1];
    }
  }

  lemma SlashExtendsLastSegment(p: string, key: string, k: int)
    requires LastSegmentAt(p, key, k)
    ensures LastSegmentAt(p + "/", key, k)
  {
    var path := p + "/";
    assert path[k..k + |key|] == p[k..k + |key|];
    assert path[k + |key|..] == p[k + |key|..] + "/";
  }

  lemma AllSlashesSnoc(p: string, c: char)
    ensures AllSlashes(p + [c]) <==> AllSlashes(p) && c == '/'
  {
    var path := p + [c];
    if AllSlashes(path) {
      assert path[|p|] == c;
      forall i | 0 <= i < |p| ensures p[i] == '/' { assert p[i] == path[i]; }
    }
  }

  /** What `RouteKeyIsLastSegment` says of a path and its key. */
  ghost predicate IsLastSegment(path: string, key: string) {
    && '/' !in key
    && (key == "" <==> AllSlashes(path))
    && (key != "" ==> exists k :: LastSegmentAt(path, key, k))
  }

  lemma SlashKeepsLastSegment(p: string, key: string)
    requires IsLastSegment(p, key)
    ensures IsLastSegment(p + "/", key)
  {
    AllSlashesSnoc(p, '/');
    if key != "" {
      var k :| LastSegmentAt(p, key, k);
      SlashExtendsLastSegment(p, key, k);
    }
  }

  lemma CharEndsLastSegment(p: string, c: char)
    requires c != '/'
    ensures IsLastSegment(p + [c], Split(p)[|Split(p)| - 1] + [c])
  {
    var path := p + [c];
    var last := Split(p)[|Split(p)| - 1];
    var key := last + [c];
    AllSlashesSnoc(p, c);
    LastPiece(p);
    var k := |p| - |last|;
    assert path[k..k + |key|] == p[k..] + [c];
    assert path[k + |key|..] == [];
    assert LastSegmentAt(path, key, k);
  }

  /** The route key is the last non-empty `/`-segment: it has no slash, it
      is "" exactly when the path is nothing but slashes, and otherwise it
      is a whole segment followed only by slashes. */
  lemma {:induction false} RouteKeyIsLastSegment(path: string)
    ensures '/' !in RouteKey(path)
    ensures RouteKey(path) == "" <==> AllSlashes(path)
    ensures RouteKey(path) != "" ==> exists k :: LastSegmentAt(path, RouteKey(path), k)
    decreases |path|
  {
    if path == [] {
      assert NonEmpty([""]) == NonEmpty([]) + [];
    } else {
      var p := path[..|path| - 1];
      var c := path[|path| - 1];
      assert path == p + [c];
      RouteKeyIsLastSegment(p);
      assert IsLastSegment(p, RouteKey(p));
      RouteKeySnoc(p, c);
      if c == '/' {
        SlashKeepsLastSegment(p, RouteKey(p));
      } else {
        CharEndsLastSegment(p, c);
      }
      assert IsLastSegment(path, RouteKey(path));
    }
  }

  /** The six ways a request is handled (app.ts:36, 69, 82, 103, 122, 127). */
  datatype Endpoint =
    | RegisterHostEndpoint
    | FetchHostEndpoint
    | RegisterGuestEndpoint
    | FetchGuestEndpoint
    | DebugEndpoint
    | UnhandledRequest

  /** The dispatch, tried in the source's order: `debug` answers whatever
      the verb, `host` and `guest` only on GET and POST. */
  function Route(key: string, verb: string): (e: Endpoint)
    ensures e == DebugEndpoint <==> key == "debug"
    ensures e == UnhandledRequest <==>
      key != "debug" && !((key == "host" || key == "guest") && (verb == "GET" || verb == "POST"))
    ensures e == RegisterHostEndpoint <==> key == "host" && verb == "POST"
    ensures e == FetchHostEndpoint <==> key == "host" && verb == "GET"
    ensures e == RegisterGuestEndpoint <==> key == "guest" && verb == "POST"
    ensures e == FetchGuestEndpoint <==> key == "guest" && verb == "GET"
  {
    if key == "host" && verb == "POST" then RegisterHostEndpoint
    else if key == "host" && verb == "GET" then FetchHostEndpoint
    else if key == "guest" && verb == "POST" then RegisterGuestEndpoint
    else if key == "guest" && verb == "GET" then FetchGuestEndpoint
    else if key == "debug" then DebugEndpoint
    else UnhandledRequest
  }

  /** A path of slashes alone is routed on "". */
  lemma RouteKeyOfSlashes(path: string)
    requires AllSlashes(path)
    ensures RouteKey(path) == ""
  {
    RouteKeyIsLastSegment(path);
  }

  lemma SplitSlash()
    ensures Split("/") == ["", ""]
  {
    SplitSnoc("", '/');
    assert "" + ['/'] == "/";
  }

  lemma SplitSlashNameSnoc(init: string, c: char)
    requires c != '/' && Split("/" + init) == ["", init]
    ensures Split("/" + (init + [c])) == ["", init + [c]]
  {
    SplitSnoc("/" + init, c);
    assert ("/" + init) + [c] == "/" + (init + [c]);
  }

  lemma {:induction false} SplitSlashName(name: string)
    requires '/' !in name
    ensures Split("/" + name) == ["", name]
    decreases |name|
  {
    if name == [] {
      SplitSlash();
      assert "/" + name == "/";
    } else {
      var init := name[..|name| - 1];
      var c := name[|name| - 1];
      assert name == init + [c];
      assert '/' !in init by { assert forall i | 0 <= i < |init| :: init[i] == name[i]; }
      SplitSlashName(init);
      SplitSlashNameSnoc(init, c);
    }
  }

  /** A path of one segment routes on that segment: `/host` on "host",
      `/guest` on "guest". */
  lemma RouteKeyOfSegment(name: string)
    requires name != "" && '/' !in name
    ensures RouteKey("/" + name) == name
  {
    SplitSlashName(name);
    NonEmptyAppend([""], [name]);
    assert [""] + [name] == ["", name];
    assert NonEmpty([""]) == [] by { assert [""][..0] == []; }
    assert NonEmpty([name]) == [name] by { assert [name][..0] == []; }
  }
}
