/**
 The route tree of radix.go: nodes linked by mutable child lists, entered one
 segment at a time, and looked up by a loop over the bytes of the path. Every
 method is proved against the plain list of routes the tree represents.
 */
module Trie {
  import opened Decimals
  import opened Paths
  import opened Routes
  import opened TrieShape
  import opened TrieSteps
  import opened Options
  import opened Sequences

  class Tree {
    const root: Node
    ghost var index: map<Key, Node>
    ghost var rests: map<Key, nat>
    ghost var catchAlls: set<Node>
    /** Every node of the tree. */
    ghost var nodes: set<Node>

    ghost function Snap(): Shape
      reads this, nodes
    {
      Shape(index, rests, catchAlls, map n | n in nodes :: n.Look())
    }

    /** The tree represents this list of registrations. */
    ghost predicate Represents(routes: seq<Route>)
      reads this, nodes
    {
      Snap().Represents(routes) && [] in index && index[[]] == root
    }

    /** The node for the segments q. */
    ghost predicate NodeOf(q: seq<Segment>, n: Node)
      reads this
    {
      Body(q) in index && index[Body(q)] == n
    }

    constructor ()
      ensures Represents([])
      ensures fresh(nodes)
    {
      root := new Node(Leaf(Root, "", 0, []));
      new;
      index := map[[] := root];
      rests, catchAlls, nodes := map[], {}, {root};
      EmptyTree(root);
      assert Snap() == Shape(map[[] := root], map[], {}, map[root := Leaf(Root, "", 0, [])]);
    }

    /** The child node for a literal segment, found by scanning the children. */
    method FindStatic(n: Node, ghost k: Key, segment: string) returns (c: Node?)
      requires Snap().Structured() && k in index && index[k] == n
      ensures c == null <==> k + [At(segment)] !in index
      ensures c != null ==> index[k + [At(segment)]] == c
    {
      ghost var s, k' := Snap(), k + [At(segment)];
      assert s.Linked(k) && k'[..|k|] == k;
      if k' in s.index {
        assert s.Linked(k');
      }
      hide Shape.Linked, ParamCount;
      for i := 0 to |n.children|
        invariant forall j :: 0 <= j < i ==> !(n.children[j].nType == Static && n.children[j].path == segment)
      {
        if n.children[i].nType == Static && n.children[i].path == segment {
          assert s.ChildFits(k, n.children[i]);
          return n.children[i];
        }
      }
      c := null;
    }

    /** The child node for a parameter at this position. */
    method FindWild(n: Node, ghost k: Key, position: nat) returns (c: Node?)
      requires Snap().Structured() && k in index && index[k] == n
      requires position == ParamCount(k) + 1
      ensures c == null <==> k + [Any] !in index
      ensures c != null ==> index[k + [Any]] == c
    {
      ghost var s, k' := Snap(), k + [Any];
      assert s.Linked(k) && k'[..|k|] == k;
      if k' in s.index {
        assert s.Linked(k');
        LeafCount(k, Any);
      }
      for i := 0 to |n.children|
        invariant forall j :: 0 <= j < i ==> !(n.children[j].nType == Wild && n.children[j].position == position)
      {
        if n.children[i].nType == Wild && n.children[i].position == position {
          assert s.ChildFits(k, n.children[i]);
          return n.children[i];
        }
      }
      c := null;
    }

    /** A new node, the last child of n. */
    method Append(n: Node, v: View) returns (c: Node)
      requires n in nodes
      modifies this`nodes, n
      ensures nodes == old(nodes) + {c} && fresh(c)
      ensures Snap().store == old(Snap().store)[n := n.Look()][c := v]
      ensures n.Look() == old(n.Look()).(children := old(n.children) + [c])
    {
      c := new Node(v);
      n.children := n.children + [c];
      nodes := nodes + {c};
    }

    /** A new child behind the others, for the segment of this entry. */
    method AddChild(n: Node, v: View, ghost en: Entry) returns (c: Node)
      requires en.Ok() && Represents(en.Before()) && NodeFor(en, v)
      requires en.From() in index && index[en.From()] == n && en.To() !in index
      modifies this, n
      ensures Represents(en.After())
      ensures en.To() in index && index[en.To()] == c
      ensures nodes == old(nodes) + {c} && fresh(c)
    {
      hide Shape.Represents, Shape.Structured, Shape.Linked, LeafFor;
      ghost var s := Snap();
      InStore(s, en.Before(), en.From());
      c := Append(n, v);
      index := index[en.To() := c];
      assert Snap() == s.WithLeaf(en.From(), EdgeOf(en.s), c, v);
      NewLeaf(s, en, c, v);
    }
  
    /** A literal segment of a registration: the existing child, or a new one. */
    method EnterLiteral(n: Node, segment: string, ghost en: Entry) returns (next: Node)
      requires en.Ok() && en.s == Literal(segment) && Represents(en.Before())
      requires en.From() in index && index[en.From()] == n
      modifies this, n
      ensures Represents(en.After())
      ensures en.To() in index && index[en.To()] == next
      ensures nodes <= old(nodes) + {next} && fresh(nodes - old(nodes)) && old(nodes) <= nodes
    {
      hide ParamCount, Body, Entered, Shape.Structured, Shape.Represents;
      InStore(Snap(), en.Before(), en.From());
      var found := FindStatic(n, en.From(), segment);
      if found != null {
        next := found;
        InStore(Snap(), en.Before(), en.To());
        ghost var v := Snap().store[next];
        OldNode(Snap(), en, v.names);
        assert Snap().WithValues(en.To(), v.names, v.handler, v.origines) == Snap();
      } else {
        next := AddChild(n, Leaf(Static, segment, 0, []), en);
      }
    }

    /** A parameter of a registration: one more name for the existing child, or a new one. */
    method EnterParam(n: Node, name: string, position: nat, ghost en: Entry) returns (next: Node)
      requires en.Ok() && en.s == Param(name) && Represents(en.Before())
      requires en.From() in index && index[en.From()] == n && position == ParamCount(en.From()) + 1
      modifies this, nodes
      ensures Represents(en.After())
      ensures en.To() in index && index[en.To()] == next
      ensures fresh(nodes - old(nodes)) && old(nodes) <= nodes
    {
      hide ParamCount, Body, Entered, Shape.Structured, Shape.Represents, Shape.Linked;
      ghost var s := Snap();
      InStore(s, en.Before(), en.From());
      var found := FindWild(n, en.From(), position);
      if found != null {
        next := found;
        InStore(s, en.Before(), en.To());
        var known := false;
        for j := 0 to |next.names|
          invariant !known ==> name !in next.names[..j]
          invariant known ==> name in next.names
        {
          if next.names[j] == name {
            known := true;
            break;
          }
        }
        ghost var v := s.store[next];
        OldNode(s, en, if known then v.names else v.names + [name]);
        if !known {
          next.names := next.names + [name];
        }
        assert Snap() == s.WithValues(en.To(), next.names, v.handler, v.origines);
      } else {
        next := AddChild(n, Leaf(Wild, ":" + Decimal(position), position, [name]), en);
      }
    }
  
    /** The catch-all that ends a registration: a new child each time. */
    method AddRest(n: Node, name: string, handler: Handler, origins: seq<string>, ghost en: Ending) returns (c: Node)
      requires en.handler == handler && en.origins == origins
      requires !EndsInCatchAll(en.q) && Represents(en.Before())
      requires Body(en.q) in index && index[Body(en.q)] == n
      modifies this, n
      ensures Represents(en.AfterRest(name))
      ensures nodes == old(nodes) + {c} && fresh(c)
    {
      hide ParamCount, Body, Shape.Structured, Shape.Represents, Shape.Linked, EndsInCatchAll, Ending.Before, Ending.AfterRest, IsRest;
      ghost var s, k := Snap(), Body(en.q);
      InStore(s, en.Before(), k);
      var v := View(Rest, "*" + name, 0, [], Some(handler), JoinComma(origins), []);
      RestView(en, name, v);
      ghost var before := |n.children|;
      c := Append(n, v);
      rests := if k in rests then rests else rests[k := before];
      catchAlls := catchAlls + {c};
      assert Snap() == s.WithRest(k, c, v);
      RestAdded(s, en, name, c, v);
    }
  
    /** The last node of a registration gets its handler; an earlier one is replaced. */
    method SetHandler(n: Node, handler: Handler, origines: string, ghost en: Ending)
      requires en.handler == handler && origines == en.Origins(n.origines)
      requires !EndsInCatchAll(en.q) && Represents(en.Before())
      requires Body(en.q) in index && index[Body(en.q)] == n
      modifies n
      ensures Represents(en.After())
    {
      hide ParamCount, Body, Entered, Shape.Structured, Shape.Represents, Shape.Linked;
      ghost var s, k := Snap(), Body(en.q);
      InStore(s, en.Before(), k);
      HandlerSet(s, en, origines);
      n.handler, n.origines := Some(handler), origines;
      assert Snap() == s.WithValues(k, n.names, Some(handler), origines);
    }

    /** The loop of insertChild over the segments of a path. */
    method AddSegments(segments: seq<string>, handler: Handler, origins: seq<string>, ghost base: seq<Route>)
      requires segments != [] && Represents(Entered(base, [], origins))
      modifies this, nodes
      ensures Represents(base + [Route(ParseSegments(segments), Some(handler), origins)])
      ensures fresh(nodes - old(nodes)) && old(nodes) <= nodes
    {
      hide Shape.Represents, HandlerAt, OriginsAt, CatchAllAt, NamesAt, Reaches, JoinComma, Body, ParamCount, Entered;
      hide ParseSegments;
      var current, paramCount := root, 0;
      ghost var q: seq<Segment> := [];
      EmptyBody();
      for i := 0 to |segments|
        invariant |q| == i && Opened(segments, i, q)
        invariant Represents(Entered(base, q, origins)) && NodeOf(q, current) && paramCount == ParamCount(Body(q))
        invariant fresh(nodes - old(nodes)) && old(nodes) <= nodes
      {
        var segment := segments[i];
        OpenedNext(segments, i, q);
        CurrentNode(Snap(), Entered(base, q, origins), Body(q));
        ghost var s := ParseSegment(segment);
        ghost var en := Entry(base, q, s, origins);
        if segment != "" && segment[0] == ':' {
          paramCount := paramCount + 1;
          current := EnterParam(current, segment[1..], paramCount, en);
        } else if segment != "" && segment[0] == '*' {
          var _ := AddRest(current, segment[1..], handler, origins, Ending(base, q, handler, origins));
          return;
        } else {
          current := EnterLiteral(current, segment, en);
        }
        BodyAppend(q, s);
        LeafCount(Body(q), EdgeOf(s));
        q := q + [s];
      }
      OpenedAll(segments, q);
      CurrentNode(Snap(), Entered(base, q, origins), Body(q));
      SetHandler(current, handler, JoinComma(origins), Ending(base, q, handler, origins));
    }

    /** insertChild: one registration more. */
    method AddPath(path: string, handler: Handler, origins: seq<string>, ghost base: seq<Route>)
      requires Represents(base)
      modifies this, nodes
      ensures Represents(base + [Route(ParsePattern(path), Some(handler), origins)])
      ensures fresh(nodes - old(nodes)) && old(nodes) <= nodes
    {
      hide Shape.Represents, HandlerAt, OriginsAt, CatchAllAt, NamesAt, Reaches, JoinComma;
      Started(Snap(), base, origins);
      assert Body([]) == [];
      CurrentNode(Snap(), base, []);
      if path == "/" {
        var origines := root.origines;
        if |origins| > 0 {
          origines := JoinOrigins(origins);
        }
        SetHandler(root, handler, origines, Ending(base, [], handler, origins));
      } else {
        AddSegments(Split(Trim(path)), handler, origins, base);
      }
    }
  
    /** The first catch-all child, which takes the rest of the path. */
    method FindRest(n: Node, ghost routes: seq<Route>, ghost k: Key, ghost rest: string) returns (c: Node?)
      requires Represents(routes) && k in index && index[k] == n
      ensures c == null ==> Caught(routes, k, rest) == NOTHING
      ensures c != null ==>
        c.path != "" && Caught(routes, k, rest) == Match(c.handler, c.origines, [Captured(c.path[1..], rest)], true)
    {
      hide HandlerAt, OriginsAt, CatchAllAt, NamesAt, Reaches, ParamCount;
      ghost var s := Snap();
      assert s.Linked(k) && s.Holds(routes, k);
      assert forall j :: 0 <= j < |n.children| ==> s.ChildFits(k, n.children[j]);
      for i := 0 to |n.children|
        invariant forall j :: 0 <= j < i ==> n.children[j].nType != Rest
      {
        if n.children[i].nType == Rest {
          return n.children[i];
        }
      }
      c := null;
    }

    /** One segment of a look-up: the literal child, else the parameter child and its captures, else none. */
    method Descend(current: Node, paramPos: nat, segment: string, ghost routes: seq<Route>, ghost k: Key)
      returns (next: Node?, paramPos': nat, got: seq<Captured>, ghost k': Key)
      requires Represents(routes) && k in index && index[k] == current && paramPos == ParamCount(k)
      ensures next != null ==> k' in index && index[k'] == next && paramPos' == ParamCount(k')
      ensures Taken(routes, k, segment) == if next == null then None else Some(Turn(k', got))
    {
      hide HandlerAt, OriginsAt, CatchAllAt, NamesAt, ParamCount, IsRest, Shape.Structured, Shape.Linked;
      InStore(Snap(), routes, k);
      KnownKey(Snap(), routes, k + [At(segment)]);
      KnownKey(Snap(), routes, k + [Any]);
      LeafCount(k, At(segment));
      LeafCount(k, Any);
      got, paramPos' := [], paramPos;
      next := FindStatic(current, k, segment);
      k' := k + [At(segment)];
      if next == null && segment != "" {
        paramPos' := paramPos' + 1;
        var child := FindWild(current, k, paramPos');
        if child != null {
          for j := 0 to |child.names|
            invariant got == WithNames(child.names, segment)[..j]
          {
            got := got + [Captured(child.names[j], segment)];
          }
          assert got == WithNames(child.names, segment);
          next, k' := child, k + [Any];
        }
      }
    }
  
    /** getHandler: what a request path finds. */
    method GetHandler(path: string, withParams: bool, ghost routes: seq<Route>)
      returns (handler: Option<Handler>, ps: seq<Captured>, origines: string)
      requires Represents(routes)
      ensures Returned(LookUp(routes, path), withParams, handler, ps, origines)
    {
      hide HandlerAt, OriginsAt, CatchAllAt, NamesAt, Reaches, Shape.Represents, Follow, Split;
      if path == "/" {
        KnownKey(Snap(), routes, []);
        CurrentNode(Snap(), routes, []);
        return root.handler, [], root.origines;
      }
      var p := if path != "" && path[0] == '/' then path[1..] else path;
      handler, ps, origines := Walk(p, withParams, routes);
    }

    /** The loop of getHandler over the bytes of the path. */
    method Walk(p: string, withParams: bool, ghost routes: seq<Route>)
      returns (handler: Option<Handler>, ps: seq<Captured>, origines: string)
      requires Represents(routes)
      ensures Returned(Follow(routes, [], Split(p)), withParams, handler, ps, origines)
    {
      hide HandlerAt, OriginsAt, CatchAllAt, NamesAt, Reaches, ParamCount, Shape.Represents, Follow, Taken, Split, Left, Caught;
      KnownKey(Snap(), routes, []);
      var current, start, paramPos := root, 0, 0;
      ghost var want := Follow(routes, [], Left(p, 0));
      ghost var k, captured: seq<Captured> := [], [];
      EmptyBody();
      WholePath(p);
      ps := [];
      BehindNothing(want);
      for i := 0 to |p| + 1
        invariant start <= i && Segmented(p, start, i)
        invariant k in index && index[k] == current && paramPos == ParamCount(k)
        invariant want == Behind(captured, Follow(routes, k, Left(p, start)))
        invariant ps == if withParams then captured else []
      {
        if i == |p| || p[i] == '/' {
          var segment := p[start..i];
          FollowOne(routes, k, p, start, i);
          var next, pos, got, k' := Descend(current, paramPos, segment, routes, k);
          if next == null {
            var child := FindRest(current, routes, k, p[start..]);
            if child == null {
              return None, [], "";
            }
            if withParams {
              ps := ps + [Captured(child.path[1..], p[start..])];
            }
            return child.handler, ps, child.origines;
          }
          BehindTwice(captured, got, Follow(routes, k', Left(p, i + 1)));
          if withParams {
            ps := ps + got;
          }
          current, start, paramPos := next, i + 1, pos;
          k, captured := k', captured + got;
        }
      }
      LastNode(Snap(), routes, k, p);
      assert captured + [] == captured;
      return current.handler, ps, current.origines;
    }
  }

  /** A look-up hands back what it found, with the captures if they are wanted. */
  predicate Returned(m: Match, withParams: bool, handler: Option<Handler>, ps: seq<Captured>, origines: string) {
    handler == m.handler && origines == m.origins && ps == if withParams then m.captured else []
  }

  /** The segments from start on; none behind the end. */
  function Left(p: string, start: nat): seq<string> {
    if start <= |p| then Split(p[start..]) else []
  }

  /** No slash between start and i. */
  predicate Segmented(p: string, start: nat, i: nat) {
    if start <= |p| then start <= i <= |p| && '/' !in p[start..i] else start == |p| + 1
  }

  /** The node of a known key holds its names and its handler. */
  lemma KnownKey(s: Shape, routes: seq<Route>, k: Key)
    requires s.Represents(routes)
    ensures k in s.index <==> Reaches(routes, k)
    ensures k in s.index ==> s.index[k] in s.store
    ensures k in s.index ==>
      var v := s.store[s.index[k]];
      && v.handler == HandlerAt(routes, k)
      && v.origines == OriginsAt(routes, k)
      && (k != [] && k[|k| - 1].Any? ==> v.names == NamesAt(routes, k))
  {
    if k in s.index {
      assert s.Holds(routes, k);
    }
  }

  lemma WholePath(p: string)
    ensures Left(p, 0) == Split(p)
  {
    assert p[0..] == p;
  }

  lemma SplitRest(p: string, start: nat, i: nat)
    requires start <= i <= |p| && '/' !in p[start..i] && (i < |p| ==> p[i] == '/')
    ensures Left(p, start) == [p[start..i]] + Left(p, i + 1)
  {
    var s := p[start..];
    assert s[..i - start] == p[start..i];
    SplitAtSlash(s, i - start);
    if i < |p| {
      assert s[i - start + 1..] == p[i + 1..];
    } else {
      assert p[start..i] == s;
      assert [s] + [] == [s];
    }
  }

  lemma FollowOne(routes: seq<Route>, k: Key, p: string, start: nat, i: nat)
    requires start <= i <= |p| && '/' !in p[start..i] && (i < |p| ==> p[i] == '/')
    ensures Follow(routes, k, Left(p, start)) ==
            var t := Taken(routes, k, p[start..i]);
            if t.Some? then Behind(t.value.got, Follow(routes, t.value.to, Left(p, i + 1)))
            else Caught(routes, k, p[start..])
  {
    hide Split, Taken, Caught;
    SplitRest(p, start, i);
    JoinSplit(p[start..]);
    assert ([p[start..i]] + Left(p, i + 1))[1..] == Left(p, i + 1);
  }

  lemma LastNode(s: Shape, routes: seq<Route>, k: Key, p: string)
    requires s.Represents(routes) && k in s.index
    ensures s.index[k] in s.store
    ensures var v := s.store[s.index[k]];
            Follow(routes, k, Left(p, |p| + 1)) == Match(v.handler, v.origines, [], true)
  {
    KnownKey(s, routes, k);
  }

  lemma RestView(en: Ending, name: string, v: View)
    requires v == View(Rest, "*" + name, 0, [], Some(en.handler), JoinComma(en.origins), [])
    ensures IsRest(Route(en.q + [CatchAll(name)], Some(en.handler), en.origins), v)
  {
  }

  lemma BehindNothing(m: Match)
    ensures Behind([], m) == m
  {
  }

  lemma BehindTwice(a: seq<Captured>, b: seq<Captured>, m: Match)
    ensures Behind(a, Behind(b, m)) == Behind(a + b, m)
  {
    Assoc(a, b, m.captured);
  }
}
