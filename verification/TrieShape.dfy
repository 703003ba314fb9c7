/**
 The nodes of radix.go's route tree and what it means for a linked tree of them
 to represent a list of routes. A Shape is a snapshot of the heap, so that the
 effect of an update on the whole tree is a statement about values.
 */
module TrieShape {
  import opened Paths
  import opened Routes
  import opened Options

  datatype NodeType = Static | Root | Wild | Rest

  /** The fields of a node. position: how many parameters there are on the way to a parameter node, itself included. */
  datatype View = View(nType: NodeType, path: string, position: nat, names: seq<string>,
                       handler: Option<Handler>, origines: string, children: seq<Node>)

  class Node {
    const path: string
    const nType: NodeType
    const position: nat
    var names: seq<string>
    var handler: Option<Handler>
    var origines: string
    var children: seq<Node>

    constructor (v: View)
      ensures Look() == v
    {
      nType, path, position, names := v.nType, v.path, v.position, v.names;
      handler, origines, children := v.handler, v.origines, v.children;
    }

    function Look(): View
      reads this
    {
      View(nType, path, position, names, handler, origines, children)
    }
  }

  function Leaf(nType: NodeType, path: string, position: nat, names: seq<string>): View {
    View(nType, path, position, names, None, "", [])
  }

  /** Whether v is the node of this catch-all route. */
  predicate IsRest(route: Route, v: View) {
    && v.nType == Rest
    && EndsInCatchAll(route.pattern)
    && v.path == "*" + route.pattern[|route.pattern| - 1].name
    && v.handler == route.handler
    && v.origines == JoinComma(route.origins)
  }

  /**
   index: the node for every sequence of edges that some route goes through;
   rests: where in its child list such a node has its first catch-all.
   */
  datatype Shape = Shape(index: map<Key, Node>, rests: map<Key, nat>, catchAlls: set<Node>, store: map<Node, View>)
  {
    /** A child of the node at k is the one its kind and path say. */
    ghost predicate ChildFits(k: Key, c: Node) {
      && c in store
      && match store[c].nType
         case Static => k + [At(store[c].path)] in index && index[k + [At(store[c].path)]] == c
         case Wild => k + [Any] in index && index[k + [Any]] == c
         case Rest => c in catchAlls
         case Root => false
    }

    ghost predicate Indexed() {
      && (forall c :: c in catchAlls ==> c in store)
      && (forall k :: k in rests ==> k in index)
      && (forall k {:trigger index[k]} :: k in index ==> index[k] in store && index[k] !in catchAlls)
      && (forall k, k' {:trigger index[k], index[k']} :: k in index && k' in index && index[k] == index[k'] ==> k == k')
    }

    /** The node at k, its children and its parent are linked; its first catch-all child is known. */
    ghost predicate Linked(k: Key)
      requires Indexed() && k in index
    {
      var v := store[index[k]];
      && (forall i :: 0 <= i < |v.children| ==> ChildFits(k, v.children[i]))
      && (forall i :: 0 <= i < |v.children| && (k in rests ==> i < rests[k]) ==> store[v.children[i]].nType != Rest)
      && (k in rests ==> rests[k] < |v.children| && store[v.children[rests[k]]].nType == Rest)
      && if k == [] then v.nType == Root else
           var parent := k[..|k| - 1];
           && parent in index && index[k] in store[index[parent]].children
           && match k[|k| - 1]
              case At(text) => v.nType == Static && v.path == text
              case Any => v.nType == Wild && v.position == ParamCount(k)
    }

    ghost predicate Structured() {
      && Indexed()
      && [] in index
      && (forall k {:trigger Linked(k)} :: k in index ==> Linked(k))
    }

    /** The node at k holds what the routes say about k. */
    ghost predicate Holds(routes: seq<Route>, k: Key)
      requires Indexed() && k in index && Linked(k)
    {
      var v := store[index[k]];
      && v.handler == HandlerAt(routes, k)
      && v.origines == OriginsAt(routes, k)
      && (CatchAllAt(routes, k).Some? <==> k in rests)
      && (k in rests ==> IsRest(CatchAllAt(routes, k).value, store[v.children[rests[k]]]))
      && (k != [] && k[|k| - 1].Any? ==> v.names == NamesAt(routes, k))
    }

    /** The tree represents this list of registrations. */
    ghost predicate Represents(routes: seq<Route>) {
      && Structured()
      && (forall k {:trigger Reaches(routes, k)} {:trigger k in index} :: k in index <==> Reaches(routes, k))
      && (forall k {:trigger Holds(routes, k)} :: k in index ==> Linked(k) && Holds(routes, k))
    }

    /** A leaf c for the edges k + [e], below the node at k. */
    ghost function WithLeaf(k: Key, e: Edge, c: Node, v: View): Shape
      requires k in index && index[k] in store
    {
      var p := store[index[k]];
      Shape(index[k + [e] := c], rests, catchAlls, store[index[k] := p.(children := p.children + [c])][c := v])
    }

    /** A catch-all below the node at k. */
    ghost function WithRest(k: Key, c: Node, v: View): Shape
      requires k in index && index[k] in store
    {
      var p := store[index[k]];
      Shape(index, if k in rests then rests else rests[k := |p.children|], catchAlls + {c},
            store[index[k] := p.(children := p.children + [c])][c := v])
    }

    /** Other values in the node at k, the links being what they were. */
    ghost function WithValues(k: Key, names: seq<string>, handler: Option<Handler>, origines: string): Shape
      requires k in index && index[k] in store
    {
      this.(store := store[index[k] := store[index[k]].(names := names, handler := handler, origines := origines)])
    }
  }

  ghost predicate LeafFor(k: Key, e: Edge, v: View) {
    && v.handler == None && v.origines == "" && v.children == []
    && match e
       case At(text) => v.nType == Static && v.path == text
       case Any => v.nType == Wild && v.position == ParamCount(k) + 1
  }

  // ----- The links survive -----

  /** Nodes keep their place, kind, path and children; children may be added behind the others. */
  ghost predicate Extends(s: Shape, s': Shape) {
    && (forall k {:trigger s.index[k]} :: k in s.index ==> k in s'.index && s'.index[k] == s.index[k])
    && s.catchAlls <= s'.catchAlls
    && (forall n {:trigger s.store[n]} :: n in s.store ==> n in s'.store && Continues(s.store[n], s'.store[n]))
  }

  ghost predicate Continues(v: View, v': View) {
    v'.nType == v.nType && v'.path == v.path && v'.position == v.position && v.children <= v'.children
  }

  lemma ChildKept(s: Shape, s': Shape, k: Key, c: Node)
    requires Extends(s, s') && s.ChildFits(k, c)
    ensures s'.ChildFits(k, c)
  {
    assert Continues(s.store[c], s'.store[c]);
  }

  /** What a node needs of its new children for the links to survive. */
  ghost predicate Grows(s: Shape, s': Shape, k: Key)
    requires s.Indexed() && s'.Indexed() && Extends(s, s') && k in s.index
  {
    var n := s.index[k];
    var cs, cs' := s.store[n].children, s'.store[n].children;
    && (forall i :: |cs| <= i < |cs'| ==> s'.ChildFits(k, cs'[i]))
    && (k in s.rests ==> k in s'.rests && s'.rests[k] == s.rests[k])
    && (k !in s.rests ==> forall i :: |cs| <= i < |cs'| && (k in s'.rests ==> i < s'.rests[k]) ==> s'.store[cs'[i]].nType != Rest)
    && (k !in s.rests && k in s'.rests ==> |cs| <= s'.rests[k] < |cs'| && s'.store[cs'[s'.rests[k]]].nType == Rest)
  }

  lemma LinkKept(s: Shape, s': Shape, k: Key)
    requires s.Indexed() && s'.Indexed() && Extends(s, s') && k in s.index && s.Linked(k) && Grows(s, s', k)
    ensures s'.Linked(k)
  {
    hide ParamCount, Shape.ChildFits;
    var n := s.index[k];
    var cs, cs' := s.store[n].children, s'.store[n].children;
    assert Continues(s.store[n], s'.store[n]);
    forall i | 0 <= i < |cs|
      ensures s'.ChildFits(k, cs'[i]) && cs'[i] in s.store && s'.store[cs'[i]].nType == s.store[cs[i]].nType
    {
      ChildKept(s, s', k, cs[i]);
      ChildStored(s, k, cs[i]);
    }
    if k != [] {
      assert Continues(s.store[s.index[k[..|k| - 1]]], s'.store[s.index[k[..|k| - 1]]]);
    }
  }

  lemma ChildStored(s: Shape, k: Key, c: Node)
    requires s.ChildFits(k, c)
    ensures c in s.store
  {
  }

  // ----- The values survive -----

  /** The routes say the same about k. */
  ghost predicate SameAt(routes: seq<Route>, routes': seq<Route>, k: Key) {
    && HandlerAt(routes', k) == HandlerAt(routes, k)
    && OriginsAt(routes', k) == OriginsAt(routes, k)
    && CatchAllAt(routes', k) == CatchAllAt(routes, k)
    && (k != [] && k[|k| - 1].Any? ==> NamesAt(routes', k) == NamesAt(routes, k))
  }

  ghost predicate SameValues(v: View, v': View) {
    v'.names == v.names && v'.handler == v.handler && v'.origines == v.origines
  }

  /** Only the node at k differs. */
  ghost predicate Elsewhere(s: Shape, s': Shape, k: Key)
    requires k in s.index
  {
    && Extends(s, s')
    && (forall n {:trigger s.store[n]} :: n in s.store && n != s.index[k] ==> s'.store[n] == s.store[n])
    && (forall k' {:trigger k' in s.rests} :: k' in s.index && (k' != k || k in s.rests) ==> (k' in s'.rests <==> k' in s.rests))
    && (forall k' {:trigger s.rests[k']} :: k' in s.rests ==> k' in s'.rests && s'.rests[k'] == s.rests[k'])
  }

  lemma HoldsKept(s: Shape, s': Shape, k0: Key, routes: seq<Route>, routes': seq<Route>, k: Key)
    requires s.Indexed() && s'.Indexed() && k0 in s.index && Elsewhere(s, s', k0)
    requires k in s.index && s.Linked(k) && s'.Linked(k) && s.Holds(routes, k)
    requires SameAt(routes, routes', k)
    requires SameValues(s.store[s.index[k]], s'.store[s.index[k]]) && (k in s'.rests <==> k in s.rests)
    ensures s'.Holds(routes', k)
  {
    hide HandlerAt, OriginsAt, CatchAllAt, NamesAt, ParamCount, IsRest, Continues;
    var n := s.index[k];
    assert s.store[n].children <= s'.store[n].children by {
      assert Continues(s.store[n], s'.store[n]) by {
        assert n in s.store;
      }
      StillFirst(s.store[n], s'.store[n]);
    }
    if k in s.rests {
      var c := s.store[n].children[s.rests[k]];
      assert s.ChildFits(k, c);
      assert c != s.index[k0];
    }
  }

  lemma StillFirst(v: View, v': View)
    requires Continues(v, v')
    ensures v.children <= v'.children
  {
  }

  lemma GrowsElsewhere(s: Shape, s': Shape, k0: Key, k: Key)
    requires s.Indexed() && s'.Indexed() && k0 in s.index && Elsewhere(s, s', k0)
    requires k in s.index && k != k0
    ensures Grows(s, s', k)
  {
    assert s.index[k] != s.index[k0];
  }

  lemma SameStored(s: Shape, s': Shape, k0: Key, k: Key)
    requires s.Indexed() && k0 in s.index && Elsewhere(s, s', k0) && k in s.index && k != k0
    ensures SameValues(s.store[s.index[k]], s'.store[s.index[k]])
    ensures k in s'.rests <==> k in s.rests
  {
    assert s.index[k] != s.index[k0];
  }

  /** If only the node at k0 changes, and the routes say the same about all other keys, only k0 and new keys matter. */
  lemma RepresentsMore(s: Shape, s': Shape, k0: Key, routes: seq<Route>, routes': seq<Route>)
    requires s.Represents(routes) && k0 in s.index && Elsewhere(s, s', k0)
    requires s'.Indexed() && Grows(s, s', k0)
    requires forall k {:trigger SameAt(routes, routes', k)} :: k in s.index && k != k0 ==> SameAt(routes, routes', k)
    requires s'.Linked(k0) ==> s'.Holds(routes', k0)
    requires forall k {:trigger s'.Linked(k)} :: k in s'.index && k !in s.index ==> s'.Linked(k) && s'.Holds(routes', k)
    requires forall k {:trigger Reaches(routes', k)} {:trigger k in s'.index} :: k in s'.index <==> Reaches(routes', k)
    ensures s'.Represents(routes')
  {
    hide Shape.Linked, Shape.Holds, SameAt, Shape.Indexed, Grows, Extends;
    forall k | k in s'.index
      ensures s'.Linked(k) && s'.Holds(routes', k)
    {
      if k in s.index {
        assert s.Linked(k);
        if k != k0 {
          GrowsElsewhere(s, s', k0, k);
          LinkKept(s, s', k);
          assert s.Holds(routes, k) && SameAt(routes, routes', k);
          SameStored(s, s', k0, k);
          HoldsKept(s, s', k0, routes, routes', k);
        } else {
          LinkKept(s, s', k);
        }
      } else {
        assert s'.Linked(k);
      }
    }
    RootKept(s, s');
  }

  lemma RootKept(s: Shape, s': Shape)
    requires Extends(s, s') && [] in s.index
    ensures [] in s'.index
  {
    assert s.index[[]] == s.index[[]];
  }
}
