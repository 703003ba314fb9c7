/**
 Routes as a plain list: what a registration means, and which one a request
 finds. Nothing here knows of a tree.
 */
module Routes {
  import opened Paths
  import opened Options

  datatype Segment = Literal(text: string) | Param(name: string) | CatchAll(name: string)

  /** A handler is known by a number. */
  type Handler = nat

  /** handler None: a registration of which only a prefix has been entered so far. */
  datatype Route = Route(pattern: seq<Segment>, handler: Option<Handler>, origins: seq<string>)

  datatype Captured = Captured(name: string, value: string)

  function ParseSegment(s: string): Segment {
    if s != "" && s[0] == ':' then Param(s[1..])
    else if s != "" && s[0] == '*' then CatchAll(s[1..])
    else Literal(s)
  }

  /** Segments behind a catch-all are dropped. */
  function ParseSegments(segments: seq<string>): (p: seq<Segment>)
    ensures Proper(p)
    ensures segments != [] ==> p != []
  {
    if segments == [] then []
    else if ParseSegment(segments[0]).CatchAll? then [ParseSegment(segments[0])]
    else [ParseSegment(segments[0])] + ParseSegments(segments[1..])
  }

  /** The pattern registered for a path; "/" has no segments. */
  function ParsePattern(path: string): (p: seq<Segment>)
    ensures Proper(p)
  {
    if path == "/" then [] else ParseSegments(Split(Trim(path)))
  }

  /** A catch-all comes last. */
  predicate Proper(p: seq<Segment>) {
    forall i :: 0 <= i < |p| - 1 ==> !p[i].CatchAll?
  }

  predicate EndsInCatchAll(p: seq<Segment>) {
    p != [] && p[|p| - 1].CatchAll?
  }

  /** The request segments a route asks for before its catch-all, with the names of its parameters left out. */
  datatype Edge = At(text: string) | Any

  type Key = seq<Edge>

  function EdgeOf(s: Segment): Edge {
    match s
    case Literal(text) => At(text)
    case Param(_) => Any
    case CatchAll(_) => Any
  }

  function Body(p: seq<Segment>): (k: Key)
    ensures |k| == if EndsInCatchAll(p) then |p| - 1 else |p|
    ensures forall i :: 0 <= i < |k| ==> k[i] == EdgeOf(p[i])
  {
    var n := if EndsInCatchAll(p) then |p| - 1 else |p|;
    seq(n, i requires 0 <= i < n => EdgeOf(p[i]))
  }

  function ParamCount(k: Key): nat {
    if k == [] then 0 else ParamCount(k[..|k| - 1]) + if k[|k| - 1].Any? then 1 else 0
  }

  /** Some route goes through k. */
  predicate Reaches(routes: seq<Route>, k: Key) {
    k == [] || exists i :: 0 <= i < |routes| && k <= Body(routes[i].pattern)
  }

  predicate EndsAt(r: Route, k: Key) {
    r.handler.Some? && !EndsInCatchAll(r.pattern) && Body(r.pattern) == k
  }

  predicate CatchesAt(r: Route, k: Key) {
    EndsInCatchAll(r.pattern) && Body(r.pattern) == k
  }

  /** The last registration that ends at k wins. */
  function HandlerAt(routes: seq<Route>, k: Key): Option<Handler> {
    if routes == [] then None
    else
      var r := routes[|routes| - 1];
      if EndsAt(r, k) then r.handler else HandlerAt(routes[..|routes| - 1], k)
  }

  /** Registering "/" again without origins keeps those it had. */
  function OriginsAt(routes: seq<Route>, k: Key): string {
    if routes == [] then ""
    else
      var r := routes[|routes| - 1];
      if EndsAt(r, k) && (k != [] || r.origins != []) then JoinComma(r.origins)
      else OriginsAt(routes[..|routes| - 1], k)
  }

  /** The first catch-all behind k wins. */
  function CatchAllAt(routes: seq<Route>, k: Key): (r: Option<Route>)
    ensures r.Some? ==> CatchesAt(r.value, k) && r.value in routes
  {
    if routes == [] then None
    else
      var first := CatchAllAt(routes[..|routes| - 1], k);
      if first.Some? then first
      else if CatchesAt(routes[|routes| - 1], k) then Some(routes[|routes| - 1])
      else None
  }

  /** Every name the parameter at the end of k was registered with, in order of first use. */
  function NamesAt(routes: seq<Route>, k: Key): seq<string>
    requires k != [] && k[|k| - 1].Any?
  {
    if routes == [] then []
    else
      var names := NamesAt(routes[..|routes| - 1], k);
      var p := routes[|routes| - 1].pattern;
      if k <= Body(p) && p[|k| - 1].Param? && p[|k| - 1].name !in names then names + [p[|k| - 1].name] else names
  }

  /** The result of a look-up: handler None when nothing, or only the inside of a longer route, was found. */
  datatype Match = Match(handler: Option<Handler>, origins: string, captured: seq<Captured>, found: bool)

  const NOTHING: Match := Match(None, "", [], false)

  function Behind(captured: seq<Captured>, m: Match): Match {
    if m.found then m.(captured := captured + m.captured) else m
  }

  function WithNames(names: seq<string>, value: string): (c: seq<Captured>)
    ensures |c| == |names|
    ensures forall i :: 0 <= i < |c| ==> c[i] == Captured(names[i], value)
  {
    seq(|names|, i requires 0 <= i < |names| => Captured(names[i], value))
  }

  datatype Turn = Turn(to: Key, got: seq<Captured>)

  /** The edge a segment takes behind k, and what it captures: the literal if some route has it there, else the parameter unless the segment is empty. */
  function Taken(routes: seq<Route>, k: Key, segment: string): Option<Turn> {
    if Reaches(routes, k + [At(segment)]) then Some(Turn(k + [At(segment)], []))
    else if segment != "" && Reaches(routes, k + [Any]) then
      Some(Turn(k + [Any], WithNames(NamesAt(routes, k + [Any]), segment)))
    else None
  }

  /** The first catch-all behind k takes all that remains. */
  function Caught(routes: seq<Route>, k: Key, rest: string): Match {
    var c := CatchAllAt(routes, k);
    if c.None? then NOTHING
    else
      var name := c.value.pattern[|c.value.pattern| - 1].name;
      Match(c.value.handler, JoinComma(c.value.origins), [Captured(name, rest)], true)
  }

  /** The route a request takes from k on, segment by segment; there is no way back. */
  function Follow(routes: seq<Route>, k: Key, segments: seq<string>): Match
    decreases |segments|
  {
    if segments == [] then Match(HandlerAt(routes, k), OriginsAt(routes, k), [], true)
    else
      var t := Taken(routes, k, segments[0]);
      if t.Some? then Behind(t.value.got, Follow(routes, t.value.to, segments[1..]))
      else Caught(routes, k, Join(segments))
  }

  function StripSlash(path: string): string {
    if path != "" && path[0] == '/' then path[1..] else path
  }

  /** What a request path finds; "/" only ever consults the handler registered for "/". */
  function LookUp(routes: seq<Route>, path: string): Match {
    if path == "/" then Match(HandlerAt(routes, []), OriginsAt(routes, []), [], true)
    else Follow(routes, [], Split(StripSlash(path)))
  }

  // ----- One registration more -----

  lemma LastRoute(base: seq<Route>, r: Route, k: Key)
    ensures Reaches(base + [r], k) <==> Reaches(base, k) || k <= Body(r.pattern)
    ensures HandlerAt(base + [r], k) == if EndsAt(r, k) then r.handler else HandlerAt(base, k)
    ensures OriginsAt(base + [r], k)
         == if EndsAt(r, k) && (k != [] || r.origins != []) then JoinComma(r.origins) else OriginsAt(base, k)
    ensures CatchAllAt(base + [r], k)
         == if CatchAllAt(base, k).Some? then CatchAllAt(base, k) else if CatchesAt(r, k) then Some(r) else None
    ensures k != [] && k[|k| - 1].Any? ==>
      NamesAt(base + [r], k)
        == var names := NamesAt(base, k);
           if k <= Body(r.pattern) && r.pattern[|k| - 1].Param? && r.pattern[|k| - 1].name !in names
           then names + [r.pattern[|k| - 1].name] else names
  {
    var rs := base + [r];
    assert rs[..|rs| - 1] == base && rs[|rs| - 1] == r;
    if k <= Body(r.pattern) {
      assert k <= Body(rs[|base|].pattern);
    }
    if Reaches(base, k) && k != [] {
      var i :| 0 <= i < |base| && k <= Body(base[i].pattern);
      assert k <= Body(rs[i].pattern);
    }
  }

  /** The registration of a pattern of which the segments q have been entered. */
  function Entered(base: seq<Route>, q: seq<Segment>, origins: seq<string>): seq<Route> {
    base + [Route(q, None, origins)]
  }

  lemma BodyAppend(q: seq<Segment>, s: Segment)
    requires !EndsInCatchAll(q)
    ensures Body(q + [s]) == if s.CatchAll? then Body(q) else Body(q) + [EdgeOf(s)]
  {
    var p := q + [s];
    assert |Body(q)| == |q| && forall i :: 0 <= i < |q| ==> Body(q)[i] == EdgeOf(q[i]) == EdgeOf(p[i]);
  }

  lemma PrefixAppend(k: Key, b: Key, e: Edge)
    ensures k <= b + [e] <==> k <= b || k == b + [e]
  {
    if k <= b + [e] && k != b + [e] {
      assert |k| <= |b|;
      assert k == (b + [e])[..|k|] == b[..|k|];
    }
  }

  /** Entering one more segment makes one more key reachable and names its parameter; nothing else. */
  lemma EnterSegment(base: seq<Route>, q: seq<Segment>, s: Segment, origins: seq<string>, k: Key)
    requires !EndsInCatchAll(q) && !s.CatchAll?
    ensures var before, after := Entered(base, q, origins), Entered(base, q + [s], origins);
            var k' := Body(q) + [EdgeOf(s)];
            && (Reaches(after, k) <==> Reaches(before, k) || k == k')
            && HandlerAt(after, k) == HandlerAt(before, k)
            && OriginsAt(after, k) == OriginsAt(before, k)
            && CatchAllAt(after, k) == CatchAllAt(before, k)
            && (k != [] && k[|k| - 1].Any? && k != k' ==> NamesAt(after, k) == NamesAt(before, k))
            && (s.Param? ==>
                 NamesAt(after, k')
                   == if s.name in NamesAt(before, k') then NamesAt(before, k') else NamesAt(before, k') + [s.name])
  {
    var r, r' := Route(q, None, origins), Route(q + [s], None, origins);
    var k' := Body(q) + [EdgeOf(s)];
    BodyAppend(q, s);
    PrefixAppend(k, Body(q), EdgeOf(s));
    LastRoute(base, r, k);
    LastRoute(base, r', k);
    if s.Param? {
      LastRoute(base, r, k');
      LastRoute(base, r', k');
    }
  }

  /** A key no route reaches is unknown: no handler, no origins, no names, no catch-all. */
  lemma {:induction false} Unreached(routes: seq<Route>, k: Key)
    requires !Reaches(routes, k)
    ensures HandlerAt(routes, k) == None && OriginsAt(routes, k) == "" && CatchAllAt(routes, k) == None
    ensures k != [] && k[|k| - 1].Any? ==> NamesAt(routes, k) == []
  {
    if routes != [] {
      var base, r := routes[..|routes| - 1], routes[|routes| - 1];
      assert routes == base + [r];
      LastRoute(base, r, k);
      Unreached(base, k);
    }
  }
}
