/** A route is found under the path it was registered for, however many slashes stood around it. */
module RouteOwnPath {
  import opened Options
  import opened Paths
  import opened RouteCaptures
  import opened RouteOrder
  import opened RouteReached
  import opened Routes

  /** A segment as it is written in a registered path. */
  function Written(s: Segment): string {
    match s
    case Literal(text) => text
    case Param(name) => ":" + name
    case CatchAll(name) => "*" + name
  }

  function WrittenAll(p: seq<Segment>): (r: seq<string>)
    ensures |r| == |p|
    ensures forall i :: 0 <= i < |p| ==> r[i] == Written(p[i])
  {
    seq(|p|, i requires 0 <= i < |p| => Written(p[i]))
  }

  /** A pattern that can be written: no text looks like a parameter, none holds a slash, and the ends are not empty. */
  predicate Writable(p: seq<Segment>) {
    && p != [] && Proper(p)
    && Written(p[0]) != "" && Written(p[|p| - 1]) != ""
    && forall i :: 0 <= i < |p| ==>
         '/' !in Written(p[i]) && (p[i].Literal? && p[i].text != "" ==> p[i].text[0] != ':' && p[i].text[0] != '*')
  }

  lemma {:induction false} ParsedBack(p: seq<Segment>)
    requires Proper(p)
    requires forall i :: 0 <= i < |p| && p[i].Literal? && p[i].text != "" ==> p[i].text[0] != ':' && p[i].text[0] != '*'
    ensures ParseSegments(WrittenAll(p)) == p
  {
    if p != [] {
      var texts := WrittenAll(p);
      assert ParseSegment(texts[0]) == p[0];
      if p[0].CatchAll? {
        assert p == [p[0]];
      } else {
        assert texts[1..] == WrittenAll(p[1..]);
        ParsedBack(p[1..]);
        assert p == [p[0]] + p[1..];
      }
    }
  }

  lemma {:induction false} JoinEnds(segments: seq<string>)
    requires segments != []
    ensures var s := Join(segments);
            && (segments[0] != "" ==> s != "" && s[0] == segments[0][0])
            && var last := segments[|segments| - 1];
               (last != "" ==> s != "" && s[|s| - 1] == last[|last| - 1])
  {
    if |segments| > 1 {
      JoinEnds(segments[1..]);
      assert segments[1..][|segments| - 2] == segments[|segments| - 1];
    }
  }

  /** Texts without slashes, the first and the last not empty. */
  predicate Joinable(texts: seq<string>) {
    && texts != [] && texts[0] != "" && texts[|texts| - 1] != ""
    && forall i :: 0 <= i < |texts| ==> '/' !in texts[i]
  }

  /** What becomes of a joined path in a registration and in a request. */
  lemma JoinedPath(texts: seq<string>, a: string, b: string)
    requires Joinable(texts) && Slashes(a) && Slashes(b)
    ensures var path := a + Join(texts) + b; path != "/" && Split(Trim(path)) == texts
    ensures var path := "/" + Join(texts); path != "/" && Split(StripSlash(path)) == texts
  {
    hide Join, Split, Trim;
    var s := Join(texts);
    JoinEnds(texts);
    assert texts[0][0] in texts[0];
    var last := texts[|texts| - 1];
    assert last[|last| - 1] in last;
    OnlySlashes(a, s, b);
    TrimmedIs(a, s, b);
    SplitJoin(texts);
    assert ("/" + s)[1..] == s;
  }

  /** Every pattern is registered for the path in which it is written, with any slashes around it. */
  lemma WrittenBack(p: seq<Segment>, a: string, b: string)
    requires Writable(p) && Slashes(a) && Slashes(b)
    ensures ParsePattern(a + Join(WrittenAll(p)) + b) == p
  {
    hide Join, Split, Trim, ParseSegments;
    JoinedPath(WrittenAll(p), a, b);
    ParsedBack(p);
  }

  // ----- Literal segments -----

  function Literals(texts: seq<string>): (p: seq<Segment>)
    ensures |p| == |texts|
    ensures forall i :: 0 <= i < |p| ==> p[i] == Literal(texts[i])
  {
    seq(|texts|, i requires 0 <= i < |texts| => Literal(texts[i]))
  }

  lemma LiteralsOnly(p: seq<Segment>, texts: seq<string>)
    ensures !EndsInCatchAll(p) && Body(p) == Body(Literals(texts)) ==> p == Literals(texts)
    ensures !EndsInCatchAll(Literals(texts))
  {
    var q := Literals(texts);
    if !EndsInCatchAll(p) && Body(p) == Body(q) {
      forall i | 0 <= i < |p|
        ensures p[i] == q[i]
      {
        assert EdgeOf(p[i]) == Body(p)[i] == Body(q)[i] == EdgeOf(q[i]);
      }
    }
  }

  /** The way along a registered literal route. */
  lemma {:induction false} LiteralWay(routes: seq<Route>, r: Route, texts: seq<string>, n: nat)
    requires r in routes && r.pattern == Literals(texts) && n <= |texts|
    ensures var k := Body(r.pattern);
            Follow(routes, k[..n], texts[n..]) == Match(HandlerAt(routes, k), OriginsAt(routes, k), [], true)
    decreases |texts| - n
  {
    hide Reaches, HandlerAt, OriginsAt, NamesAt, Body;
    var k := Body(r.pattern);
    LiteralsOnly(r.pattern, texts);
    if n == |texts| {
      assert k[..n] == k;
    } else {
      PrefixReached(routes, r, n);
      assert k[n] == At(texts[n]);
      assert k[..n] + [k[n]] == k[..n + 1] && texts[n..][1..] == texts[n + 1..];
      LiteralWay(routes, r, texts, n + 1);
    }
  }

  lemma {:induction false} OriginsWin(routes: seq<Route>, k: Key, i: nat)
    requires i < |routes| && IsLastEnding(routes, k, i) && k != []
    ensures OriginsAt(routes, k) == JoinComma(routes[i].origins)
  {
    hide EndsAt, JoinComma;
    if i < |routes| - 1 {
      OriginsWin(routes[..|routes| - 1], k, i);
    }
  }

  /**
   A path of literal segments, with any slashes around it, is found under its own
   name with the handler and the origins of this registration, whatever was and is
   registered besides, unless a later registration is for the same segments.
   */
  lemma OwnPathFound(routes: seq<Route>, later: seq<Route>, texts: seq<string>, a: string, b: string,
                     handler: Handler, origins: seq<string>)
    requires Joinable(texts) && Slashes(a) && Slashes(b)
    requires forall i :: 0 <= i < |texts| && texts[i] != "" ==> texts[i][0] != ':' && texts[i][0] != '*'
    requires forall j :: 0 <= j < |later| ==> later[j].pattern != Literals(texts)
    ensures var r := Route(ParsePattern(a + Join(texts) + b), Some(handler), origins);
            LookUp(routes + [r] + later, "/" + Join(texts)) == Match(Some(handler), JoinComma(origins), [], true)
  {
    hide Join, Split, Trim, StripSlash, Follow, Body, JoinComma;
    var p := Literals(texts);
    var r := Route(p, Some(handler), origins);
    var all := routes + [r] + later;
    var k := Body(p);
    assert WrittenAll(p) == texts;
    WrittenBack(p, a, b);
    JoinedPath(texts, a, b);
    LiteralsOnly(p, texts);
    assert all[|routes|] == r;
    assert IsLastEnding(all, k, |routes|) by {
      forall j | |routes| < j < |all|
        ensures !EndsAt(all[j], k)
      {
        LiteralsOnly(all[j].pattern, texts);
        assert all[j] == later[j - |routes| - 1];
      }
    }
    LastWins(all, k, |routes|);
    OriginsWin(all, k, |routes|);
    assert k[..0] == [] && texts[0..] == texts;
    LiteralWay(all, r, texts, 0);
  }

  // ----- Parameters and catch-alls -----

  /** Every name the pattern has from position n on is captured with the segment at its place, that of a catch-all with all the rest. */
  ghost predicate CapturedFrom(p: seq<Segment>, n: nat, segments: seq<string>, captured: seq<Captured>)
    requires Fits(p, n, segments)
  {
    && (forall i :: n <= i < |Body(p)| && p[i].Param? ==> Captured(p[i].name, segments[i - n]) in captured)
    && (EndsInCatchAll(p) ==> Captured(p[|p| - 1].name, Join(segments[|Body(p)| - n..])) in captured)
  }

  /** What is captured on the way to the end of a route that nothing diverts from. */
  lemma {:induction false} CapturesAlong(routes: seq<Route>, r: Route, n: nat, segments: seq<string>)
    requires r in routes && Proper(r.pattern) && Fits(r.pattern, n, segments)
    requires !Diverted(routes, r.pattern, n, segments) && !Intercepted(routes, r.pattern, n, segments)
    requires EndsInCatchAll(r.pattern) ==> CatchAllAt(routes, Body(r.pattern)) == Some(r)
    ensures var m := Follow(routes, Body(r.pattern)[..n], segments);
            m.found && CapturedFrom(r.pattern, n, segments, m.captured)
    decreases |segments|
  {
    hide Body, Reaches, Diverted, Intercepted, EndsInCatchAll, Join, NamesAt, CatchAllAt, HandlerAt, OriginsAt, Taken;
    var p := r.pattern;
    var b := Body(p);
    if n == |b| {
      assert b[..n] == b && segments[0..] == segments;
      StopsHere(routes, r, segments);
    } else {
      OnePosition(routes, r, n, segments);
      var got := OneTurn(routes, r, n, segments);
      CapturesAlong(routes, r, n + 1, segments[1..]);
      CapturedBehind(p, n, segments, got, Follow(routes, b[..n + 1], segments[1..]).captured);
    }
  }

  /** At the end: nothing is left, or the catch-all takes it. */
  lemma StopsHere(routes: seq<Route>, r: Route, segments: seq<string>)
    requires Fits(r.pattern, |Body(r.pattern)|, segments) && !Intercepted(routes, r.pattern, |Body(r.pattern)|, segments)
    ensures segments == [] || (EndsInCatchAll(r.pattern) && Taken(routes, Body(r.pattern), segments[0]) == None)
    ensures segments == [] <==> !EndsInCatchAll(r.pattern)
  {
  }

  lemma OneTurn(routes: seq<Route>, r: Route, n: nat, segments: seq<string>) returns (got: seq<Captured>)
    requires r in routes && Proper(r.pattern) && Fits(r.pattern, n, segments) && n < |Body(r.pattern)|
    requires !Diverted(routes, r.pattern, n, segments)
    ensures Taken(routes, Body(r.pattern)[..n], segments[0]) == Some(Turn(Body(r.pattern)[..n + 1], got))
    ensures Passes(r.pattern[n], segments[0], got)
  {
    hide Reaches, NamesAt;
    var b := Body(r.pattern);
    PrefixReached(routes, r, n);
    assert Lets(b[n], segments[n - n]);
    assert b[..n] + [b[n]] == b[..n + 1];
    assert b[n].Any? ==> !Reaches(routes, b[..n] + [At(segments[n - n])]);
    got := Taken(routes, b[..n], segments[0]).value.got;
    FirstPasses(routes, b[..n], segments[0], r);
  }

  lemma CapturedBehind(p: seq<Segment>, n: nat, segments: seq<string>, got: seq<Captured>, captured: seq<Captured>)
    requires Fits(p, n, segments) && n < |Body(p)| && Fits(p, n + 1, segments[1..])
    requires Passes(p[n], segments[0], got) && CapturedFrom(p, n + 1, segments[1..], captured)
    ensures CapturedFrom(p, n, segments, got + captured)
  {
    hide Join, Body;
    forall i | n <= i < |Body(p)| && p[i].Param?
      ensures Captured(p[i].name, segments[i - n]) in got + captured
    {
      if i > n {
        assert segments[1..][i - (n + 1)] == segments[i - n];
      }
    }
    if EndsInCatchAll(p) {
      assert segments[1..][|Body(p)| - (n + 1)..] == segments[|Body(p)| - n..];
    }
  }

  /**
   The same for every pattern, its parameters written with a colon and its catch-all
   with a star: a request that fits it, and on whose way no other route diverts or
   intercepts it (ReachedExactly), finds this handler if this registration decides
   there; and it captures under each name the segment that stands at its place.
   */
  lemma OwnPatternFound(routes: seq<Route>, later: seq<Route>, p: seq<Segment>, a: string, b: string,
                        handler: Handler, origins: seq<string>, segments: seq<string>)
    requires Writable(p) && Slashes(a) && Slashes(b) && Fits(p, 0, segments) && segments != [""]
    requires forall i :: 0 <= i < |segments| ==> '/' !in segments[i]
    requires var r := Route(ParsePattern(a + Join(WrittenAll(p)) + b), Some(handler), origins);
             var all := routes + [r] + later;
             !Diverted(all, p, 0, segments) && !Intercepted(all, p, 0, segments) && Decides(all, |routes|)
    ensures var r := Route(ParsePattern(a + Join(WrittenAll(p)) + b), Some(handler), origins);
            var m := LookUp(routes + [r] + later, "/" + Join(segments));
            m.handler == Some(handler) && CapturedFrom(p, 0, segments, m.captured)
  {
    hide Join, Split, Trim, StripSlash, Follow, Body, Diverted, Intercepted, WrittenAll, EndsInCatchAll, CapturedFrom,
      IsLastEnding, IsFirstCatching;
    WrittenBack(p, a, b);
    var r := Route(p, Some(handler), origins);
    var all := routes + [r] + later;
    assert all[|routes|] == r;
    RequestSplit(segments);
    EndsExactly(all, |routes|, segments);
    if EndsInCatchAll(p) {
      FirstWins(all, Body(p), |routes|);
    }
    assert Body(p)[..0] == [];
    CapturesAlong(all, r, 0, segments);
  }

  lemma RequestSplit(segments: seq<string>)
    requires segments != [] && segments != [""]
    requires forall i :: 0 <= i < |segments| ==> '/' !in segments[i]
    ensures var path := "/" + Join(segments); path != "/" && Split(StripSlash(path)) == segments
  {
    hide Split;
    var s := Join(segments);
    if |segments| > 1 {
      assert |s| > 0;
    }
    SplitJoin(segments);
    assert ("/" + s)[1..] == s;
  }

  // ----- One route alone -----

  /** The request has what the pattern asks for, segment by segment. */
  predicate Matches(p: seq<Segment>, segments: seq<string>)
    requires p != []
  {
    var n := if p[|p| - 1].CatchAll? then |p| - 1 else |p|;
    && (if p[|p| - 1].CatchAll? then n < |segments| else n == |segments|)
    && forall i :: 0 <= i < n ==> if p[i].Literal? then p[i].text == segments[i] else segments[i] != ""
  }

  lemma MatchesFits(p: seq<Segment>, segments: seq<string>)
    requires p != [] && Proper(p)
    ensures Matches(p, segments) <==> Fits(p, 0, segments)
  {
    var b := Body(p);
    forall i | 0 <= i < |b| && i < |segments|
      ensures Lets(b[i], segments[i - 0]) <==> if p[i].Literal? then p[i].text == segments[i] else segments[i] != ""
    {
    }
  }

  lemma AloneUndisturbed(r: Route, segments: seq<string>)
    requires Fits(r.pattern, 0, segments)
    ensures !Diverted([r], r.pattern, 0, segments) && !Intercepted([r], r.pattern, 0, segments)
  {
    hide NamesAt;
    var b := Body(r.pattern);
    forall i, e | 0 <= i < |b| && e != b[i]
      ensures !Reaches([r], b[..i] + [e])
    {
      assert (b[..i] + [e])[i] == e;
    }
  }

  lemma FollowedFits(r: Route, n: nat, segments: seq<string>, captured: seq<Captured>)
    requires Followed(r, [], n, segments, captured) && Proper(r.pattern)
    ensures Fits(r.pattern, 0, segments)
  {
    var b := Body(r.pattern);
    forall i | 0 <= i < |b|
      ensures Lets(b[i], segments[i - 0])
    {
      assert Passes(r.pattern[0 + i], segments[i], captured);
    }
  }

  lemma AloneFound(r: Route, segments: seq<string>)
    requires r.pattern != [] && Proper(r.pattern) && r.handler.Some?
    ensures var h := Follow([r], [], segments).handler;
            (h == r.handler <==> Matches(r.pattern, segments)) && (h == None <==> !Matches(r.pattern, segments))
  {
    hide Follow, Body, Matches, Fits, Followed, Diverted, Intercepted, StopOf, EndsInCatchAll;
    assert [r][0] == r;
    MatchesFits(r.pattern, segments);
    if Matches(r.pattern, segments) {
      AloneUndisturbed(r, segments);
      EndsExactly([r], 0, segments);
    } else if Follow([r], [], segments).handler.Some? {
      var r', n := FollowSound([r], [], segments);
      FollowedFits(r', n, segments, Follow([r], [], segments).captured);
    }
  }

  /**
   A route that is registered alone is found by exactly the requests that have its
   literals where it has literals, something where it has parameters, and at least
   one segment more, if only an empty one, where it has a catch-all.
   */
  lemma OnlyRouteExactly(p: seq<Segment>, a: string, b: string, handler: Handler, origins: seq<string>, segments: seq<string>)
    requires Writable(p) && Slashes(a) && Slashes(b)
    requires segments != [] && segments != [""] && forall i :: 0 <= i < |segments| ==> '/' !in segments[i]
    ensures var r := Route(ParsePattern(a + Join(WrittenAll(p)) + b), Some(handler), origins);
            var m := LookUp([r], "/" + Join(segments));
            && (m.handler == Some(handler) <==> Matches(p, segments))
            && (m.handler == None <==> !Matches(p, segments))
  {
    hide Join, Split, Trim, StripSlash, Follow, WrittenAll, Matches;
    WrittenBack(p, a, b);
    RequestSplit(segments);
    AloneFound(Route(p, Some(handler), origins), segments);
  }

  /** "/" is found under its own name too; registered without origins it keeps those it had. */
  lemma RootFound(routes: seq<Route>, handler: Handler, origins: seq<string>)
    ensures var r := Route(ParsePattern("/"), Some(handler), origins);
            LookUp(routes + [r], "/")
              == Match(Some(handler), if origins == [] then LookUp(routes, "/").origins else JoinComma(origins), [], true)
  {
    hide JoinComma;
    LastRoute(routes, Route([], Some(handler), origins), []);
  }
}
