/** What each step of a registration does to the tree, and why the tree then represents one segment more of the new route. */
module TrieSteps {
  import opened Paths
  import opened Routes
  import opened TrieShape
  import opened Options
  import opened Sequences

  /** Segment s of a registration is entered, the segments q before it having been. */
  datatype Entry = Entry(base: seq<Route>, q: seq<Segment>, s: Segment, origins: seq<string>)
  {
    ghost predicate Ok() {
      !EndsInCatchAll(q) && !s.CatchAll?
    }

    ghost function Before(): seq<Route> {
      Entered(base, q, origins)
    }

    ghost function After(): seq<Route> {
      Entered(base, q + [s], origins)
    }

    ghost function From(): Key {
      Body(q)
    }

    ghost function To(): Key {
      Body(q) + [EdgeOf(s)]
    }
  }

  /** The node a segment gets when there is none. */
  ghost predicate NodeFor(en: Entry, v: View) {
    LeafFor(en.From(), EdgeOf(en.s), v) && (en.s.Param? ==> v.names == [en.s.name])
  }

  lemma EntryKeys(s: Shape, s': Shape, en: Entry)
    requires en.Ok() && s.Represents(en.Before())
    requires forall k :: k in s'.index <==> k in s.index || k == en.To()
    ensures forall k {:trigger Reaches(en.After(), k)} {:trigger k in s'.index} :: k in s'.index <==> Reaches(en.After(), k)
  {
    forall k {:trigger Reaches(en.After(), k)} {:trigger k in s'.index}
      ensures k in s'.index <==> Reaches(en.After(), k)
    {
      EnterSegment(en.base, en.q, en.s, en.origins, k);
      assert k in s.index <==> Reaches(en.Before(), k);
    }
  }

  lemma EntrySame(en: Entry, k: Key)
    requires en.Ok() && k != en.To()
    ensures SameAt(en.Before(), en.After(), k)
  {
    EnterSegment(en.base, en.q, en.s, en.origins, k);
  }

  /** The new node itself. */
  lemma LeafHolds(s': Shape, en: Entry)
    requires en.Ok() && !Reaches(en.Before(), en.To())
    requires s'.Indexed() && en.To() in s'.index && s'.Linked(en.To())
    requires NodeFor(en, s'.store[s'.index[en.To()]]) && en.To() !in s'.rests
    ensures s'.Holds(en.After(), en.To())
  {
    hide HandlerAt, OriginsAt, CatchAllAt, NamesAt, Reaches, ParamCount, Body, Entered;
    Unreached(en.Before(), en.To());
    EnterSegment(en.base, en.q, en.s, en.origins, en.To());
  }

  lemma LeafElsewhere(s: Shape, k: Key, e: Edge, c: Node, v: View)
    requires s.Indexed() && k in s.index && k + [e] !in s.index && c !in s.store
    ensures s.WithLeaf(k, e, c, v).Indexed() && Elsewhere(s, s.WithLeaf(k, e, c, v), k)
  {
  }

  lemma LeafGrows(s: Shape, k: Key, e: Edge, c: Node, v: View)
    requires s.Indexed() && k in s.index && k + [e] !in s.index && c !in s.store && LeafFor(k, e, v)
    requires s.WithLeaf(k, e, c, v).Indexed() && Elsewhere(s, s.WithLeaf(k, e, c, v), k)
    ensures Grows(s, s.WithLeaf(k, e, c, v), k)
  {
    hide ParamCount, Elsewhere, Extends, Shape.Indexed, Continues;
  }

  lemma LeafLinked(s: Shape, k: Key, e: Edge, c: Node, v: View)
    requires s.Indexed() && k in s.index && k + [e] !in s.index && c !in s.store && LeafFor(k, e, v)
    requires s.WithLeaf(k, e, c, v).Indexed()
    ensures s.WithLeaf(k, e, c, v).Linked(k + [e])
  {
    hide ParamCount, Shape.ChildFits;
    var s' := s.WithLeaf(k, e, c, v);
    assert (k + [e])[..|k|] == k;
    assert s'.store[s.index[k]].children[|s.store[s.index[k]].children|] == c;
    LeafCount(k, e);
  }

  lemma LeafCount(k: Key, e: Edge)
    ensures ParamCount(k + [e]) == ParamCount(k) + if e.Any? then 1 else 0
  {
    assert (k + [e])[..|k|] == k;
  }

  /** A segment that no route has at this place yet. */
  lemma NewLeaf(s: Shape, en: Entry, c: Node, v: View)
    requires en.Ok() && s.Represents(en.Before()) && en.From() in s.index && en.To() !in s.index
    requires c !in s.store && NodeFor(en, v)
    ensures s.WithLeaf(en.From(), EdgeOf(en.s), c, v).Represents(en.After())
  {
    hide ParamCount, Body, Entered, HandlerAt, OriginsAt, CatchAllAt, NamesAt, Reaches, Shape.Linked, LeafFor, Elsewhere, Grows;
    hide SameAt;
    var s' := s.WithLeaf(en.From(), EdgeOf(en.s), c, v);
    LeafElsewhere(s, en.From(), EdgeOf(en.s), c, v);
    LeafGrows(s, en.From(), EdgeOf(en.s), c, v);
    LeafLinked(s, en.From(), EdgeOf(en.s), c, v);
    EntryKeys(s, s', en);
    LeafHolds(s', en);
    forall k | k in s.index
      ensures SameAt(en.Before(), en.After(), k)
    {
      EntrySame(en, k);
    }
    assert s.Linked(en.From()) && s.Holds(en.Before(), en.From()) && SameAt(en.Before(), en.After(), en.From());
    if s'.Linked(en.From()) {
      ParentHolds(s, en, c, v);
    }
    RepresentsMore(s, s', en.From(), en.Before(), en.After());
  }

  lemma ParentHolds(s: Shape, en: Entry, c: Node, v: View)
    requires s.Indexed() && en.From() in s.index && en.To() !in s.index && c !in s.store
    requires s.Linked(en.From()) && s.Holds(en.Before(), en.From())
    requires SameAt(en.Before(), en.After(), en.From())
    requires var s' := s.WithLeaf(en.From(), EdgeOf(en.s), c, v);
             s'.Indexed() && Elsewhere(s, s', en.From()) && s'.Linked(en.From())
    ensures s.WithLeaf(en.From(), EdgeOf(en.s), c, v).Holds(en.After(), en.From())
  {
    hide Shape.Linked, Shape.Holds, SameAt, Body;
    HoldsKept(s, s.WithLeaf(en.From(), EdgeOf(en.s), c, v), en.From(), en.Before(), en.After(), en.From());
  }

  // ----- Values of an existing node -----

  lemma ValuesElsewhere(s: Shape, k: Key, names: seq<string>, handler: Option<Handler>, origines: string)
    requires s.Structured() && k in s.index
    ensures var s' := s.WithValues(k, names, handler, origines);
            && s'.Indexed() && Elsewhere(s, s', k) && Grows(s, s', k) && s'.Linked(k)
  {
    var s' := s.WithValues(k, names, handler, origines);
    assert s.Linked(k);
    LinkKept(s, s', k);
  }

  /** A segment that some route has at this place already: only the names of a parameter may change. */
  lemma OldNode(s: Shape, en: Entry, names: seq<string>)
    requires en.Ok() && s.Represents(en.Before()) && en.To() in s.index
    requires var v := s.store[s.index[en.To()]];
             names == if en.s.Param? && en.s.name !in v.names then v.names + [en.s.name] else v.names
    ensures var v := s.store[s.index[en.To()]];
            s.WithValues(en.To(), names, v.handler, v.origines).Represents(en.After())
  {
    hide ParamCount, Body, Entered, HandlerAt, OriginsAt, CatchAllAt, NamesAt, Reaches, Shape.Linked, Elsewhere, Grows, SameAt;
    var v, k := s.store[s.index[en.To()]], en.To();
    var s' := s.WithValues(k, names, v.handler, v.origines);
    ValuesElsewhere(s, k, names, v.handler, v.origines);
    EntryKeys(s, s', en);
    EnterSegment(en.base, en.q, en.s, en.origins, k);
    assert s.Linked(k) && s.Holds(en.Before(), k);
    forall k' | k' in s.index && k' != k
      ensures SameAt(en.Before(), en.After(), k')
    {
      EntrySame(en, k');
    }
    RepresentsMore(s, s', k, en.Before(), en.After());
  }

  // ----- The end of a registration -----

  /** Before its first segment is entered a registration changes nothing. */
  lemma Started(s: Shape, base: seq<Route>, origins: seq<string>)
    requires s.Represents(base)
    ensures s.Represents(Entered(base, [], origins))
  {
    hide Shape.Indexed, Shape.Linked, SameAt, HandlerAt, OriginsAt, CatchAllAt, NamesAt, IsRest;
    var routes := Entered(base, [], origins);
    assert Body([]) == [];
    forall k {:trigger Reaches(routes, k)} {:trigger k in s.index}
      ensures k in s.index <==> Reaches(routes, k)
    {
      LastRoute(base, Route([], None, origins), k);
      assert k in s.index <==> Reaches(base, k);
    }
    forall k | k in s.index
      ensures s.Linked(k) && s.Holds(routes, k)
    {
      LastRoute(base, Route([], None, origins), k);
      assert s.Linked(k) && s.Holds(base, k);
    }
  }

  /** A segment sequence that is done: its handler is set. */
  datatype Ending = Ending(base: seq<Route>, q: seq<Segment>, handler: Handler, origins: seq<string>)
  {
    ghost function Before(): seq<Route> {
      Entered(base, q, origins)
    }

    ghost function After(): seq<Route> {
      base + [Route(q, Some(handler), origins)]
    }

    /** The origins of "/" stay when none are given. */
    ghost function Origins(former: string): string {
      if q == [] && origins == [] then former else JoinComma(origins)
    }

    ghost function AfterRest(name: string): seq<Route> {
      base + [Route(q + [CatchAll(name)], Some(handler), origins)]
    }
  }

  lemma EndRoute(en: Ending, k: Key)
    requires !EndsInCatchAll(en.q)
    ensures Reaches(en.After(), k) <==> Reaches(en.Before(), k)
    ensures k != Body(en.q) ==> SameAt(en.Before(), en.After(), k)
    ensures k == Body(en.q) ==>
      && HandlerAt(en.After(), k) == Some(en.handler)
      && OriginsAt(en.After(), k) == en.Origins(OriginsAt(en.Before(), k))
      && CatchAllAt(en.After(), k) == CatchAllAt(en.Before(), k)
      && (k != [] && k[|k| - 1].Any? ==> NamesAt(en.After(), k) == NamesAt(en.Before(), k))
  {
    LastRoute(en.base, Route(en.q, None, en.origins), k);
    LastRoute(en.base, Route(en.q, Some(en.handler), en.origins), k);
  }

  lemma RestRoute(en: Ending, name: string, k: Key)
    requires !EndsInCatchAll(en.q)
    ensures Reaches(en.AfterRest(name), k) <==> Reaches(en.Before(), k)
    ensures k != Body(en.q) ==> SameAt(en.Before(), en.AfterRest(name), k)
    ensures var route := Route(en.q + [CatchAll(name)], Some(en.handler), en.origins);
            var after, first := en.AfterRest(name), CatchAllAt(en.Before(), k);
            k == Body(en.q) ==>
              && HandlerAt(after, k) == HandlerAt(en.Before(), k)
              && OriginsAt(after, k) == OriginsAt(en.Before(), k)
              && CatchAllAt(after, k) == (if first.Some? then first else Some(route))
              && (k != [] && k[|k| - 1].Any? ==> NamesAt(after, k) == NamesAt(en.Before(), k))
  {
    BodyAppend(en.q, CatchAll(name));
    LastRoute(en.base, Route(en.q, None, en.origins), k);
    LastRoute(en.base, Route(en.q + [CatchAll(name)], Some(en.handler), en.origins), k);
  }

  lemma HandlerSet(s: Shape, en: Ending, origines: string)
    requires !EndsInCatchAll(en.q) && s.Represents(en.Before()) && Body(en.q) in s.index
    requires origines == en.Origins(s.store[s.index[Body(en.q)]].origines)
    ensures var v := s.store[s.index[Body(en.q)]];
            s.WithValues(Body(en.q), v.names, Some(en.handler), origines).Represents(en.After())
  {
    hide ParamCount, Body, Entered, HandlerAt, OriginsAt, CatchAllAt, NamesAt, Reaches, Shape.Linked, Elsewhere, Grows, SameAt;
    var k := Body(en.q);
    var v := s.store[s.index[k]];
    var s' := s.WithValues(k, v.names, Some(en.handler), origines);
    ValuesElsewhere(s, k, v.names, Some(en.handler), origines);
    assert s.Linked(k) && s.Holds(en.Before(), k);
    EndRoute(en, k);
    forall k' {:trigger Reaches(en.After(), k')} {:trigger k' in s'.index}
      ensures k' in s'.index <==> Reaches(en.After(), k')
      ensures k' != k ==> SameAt(en.Before(), en.After(), k')
    {
      EndRoute(en, k');
      assert k' in s.index <==> Reaches(en.Before(), k');
    }
    RepresentsMore(s, s', k, en.Before(), en.After());
  }

  lemma RestIndexed(s: Shape, k: Key, c: Node, v: View)
    requires s.Indexed() && k in s.index && c !in s.store
    ensures s.WithRest(k, c, v).Indexed()
  {
  }

  lemma RestElsewhere(s: Shape, k: Key, c: Node, v: View)
    requires s.Indexed() && k in s.index && c !in s.store
    ensures Elsewhere(s, s.WithRest(k, c, v), k)
  {
    var s' := s.WithRest(k, c, v);
    assert s.store[s.index[k]].children <= s'.store[s.index[k]].children;
  }

  lemma RestGrows(s: Shape, k: Key, c: Node, v: View)
    requires k in s.index && s.index[k] in s.store && s.index[k] != c && v.nType == Rest
    requires s.Indexed()
    requires s.WithRest(k, c, v).Indexed() && Elsewhere(s, s.WithRest(k, c, v), k)
    ensures Grows(s, s.WithRest(k, c, v), k)
  {
    hide Elsewhere, Extends, Shape.Indexed, Continues;
    var s' := s.WithRest(k, c, v);
    var cs := s.store[s.index[k]].children;
    assert s'.store[s.index[k]].children == cs + [c];
    assert (cs + [c])[|cs|] == c;
  }

  lemma RestHolds(s: Shape, en: Ending, name: string, c: Node, v: View)
    requires !EndsInCatchAll(en.q) && s.Indexed() && Body(en.q) in s.index && c !in s.store
    requires s.Linked(Body(en.q)) && s.Holds(en.Before(), Body(en.q))
    requires IsRest(Route(en.q + [CatchAll(name)], Some(en.handler), en.origins), v)
    requires var s' := s.WithRest(Body(en.q), c, v); s'.Indexed() && s'.Linked(Body(en.q))
    ensures s.WithRest(Body(en.q), c, v).Holds(en.AfterRest(name), Body(en.q))
  {
    hide ParamCount, Body, Entered, HandlerAt, OriginsAt, CatchAllAt, NamesAt, Reaches, SameAt, IsRest;
    RestRoute(en, name, Body(en.q));
    var k := Body(en.q);
    var cs := s.store[s.index[k]].children;
    if k in s.rests {
      assert s.ChildFits(k, cs[s.rests[k]]);
      assert (cs + [c])[s.rests[k]] == cs[s.rests[k]];
    } else {
      assert (cs + [c])[|cs|] == c;
    }
  }

  lemma RestAdded(s: Shape, en: Ending, name: string, c: Node, v: View)
    requires !EndsInCatchAll(en.q) && s.Represents(en.Before()) && Body(en.q) in s.index && c !in s.store
    requires IsRest(Route(en.q + [CatchAll(name)], Some(en.handler), en.origins), v)
    ensures s.WithRest(Body(en.q), c, v).Represents(en.AfterRest(name))
  {
    hide ParamCount, Body, Entered, HandlerAt, OriginsAt, CatchAllAt, NamesAt, Reaches, Shape.Linked, Shape.Holds, Elsewhere, Grows, SameAt;
    var k := Body(en.q);
    var s' := s.WithRest(k, c, v);
    assert s.Linked(k) && s.Holds(en.Before(), k);
    RestIndexed(s, k, c, v);
    RestElsewhere(s, k, c, v);
    RestGrows(s, k, c, v);
    if s'.Linked(k) {
      RestHolds(s, en, name, c, v);
    }
    forall k' {:trigger Reaches(en.AfterRest(name), k')} {:trigger k' in s'.index}
      ensures k' in s'.index <==> Reaches(en.AfterRest(name), k')
      ensures k' != k ==> SameAt(en.Before(), en.AfterRest(name), k')
    {
      RestRoute(en, name, k');
      assert k' in s.index <==> Reaches(en.Before(), k');
    }
    RepresentsMore(s, s', k, en.Before(), en.AfterRest(name));
  }

  lemma EmptyTree(root: Node)
    ensures Shape(map[[] := root], map[], {}, map[root := Leaf(Root, "", 0, [])]).Represents([])
  {
    var s := Shape(map[[] := root], map[], {}, map[root := Leaf(Root, "", 0, [])]);
    assert s.Linked([]);
  }

  lemma InStore(s: Shape, routes: seq<Route>, k: Key)
    requires s.Represents(routes) && k in s.index
    ensures s.index[k] in s.store && s.Structured()
  {
  }

  lemma CurrentNode(s: Shape, routes: seq<Route>, k: Key)
    requires s.Represents(routes) && k in s.index
    ensures s.index[k] in s.store
  {
  }

  lemma EmptyBody()
    ensures Body([]) == [] && ParamCount([]) == 0
  {
  }

  /** q is what the first i segments mean; none of them is a catch-all. */
  ghost predicate Opened(segments: seq<string>, i: nat, q: seq<Segment>)
    requires i <= |segments|
  {
    && !EndsInCatchAll(q)
    && ParseSegments(segments) == q + ParseSegments(segments[i..])
  }

  lemma OpenedNext(segments: seq<string>, i: nat, q: seq<Segment>)
    requires i < |segments| && Opened(segments, i, q)
    ensures var s := ParseSegment(segments[i]);
            if s.CatchAll? then ParseSegments(segments) == q + [s]
            else Opened(segments, i + 1, q + [s])
  {
    var s := ParseSegment(segments[i]);
    assert segments[i..][1..] == segments[i + 1..];
    Assoc(q, [s], ParseSegments(segments[i + 1..]));
  }

  lemma OpenedAll(segments: seq<string>, q: seq<Segment>)
    requires Opened(segments, |segments|, q) && segments != []
    ensures ParseSegments(segments) == q
    ensures q != []
  {
    assert segments[|segments|..] == [];
  }
}
