/** The router: a trie of heap nodes per method, grown in place, searched with backtracking. */
module Router {
  import opened Strings
  import opened UrlPath
  import opened RouteTable

  class RadixNode {
    const segment: string
    var children: map<string, RadixNode>
    var paramChild: RadixNode?
    var handler: Option<HandlerId>

    constructor (segment: string)
      ensures this.segment == segment && children == map[] && paramChild == null && handler == None
    {
      this.segment, children, paramChild, handler := segment, map[], null, None;
    }
  }

  /** The child pointers of node `n` at place `p` lead to the nodes registered one key further. */
  ghost predicate WiredAt(nodes: map<Place, RadixNode>, p: Place, n: RadixNode)
    reads n`children, n`paramChild
  {
    && (forall s {:trigger s in n.children} :: s in n.children <==> Down(p, Static(s)) in nodes)
    && (forall s <- n.children :: Down(p, Static(s)) in nodes && n.children[s] == nodes[Down(p, Static(s))])
    && n.paramChild == if Down(p, Param) in nodes then nodes[Down(p, Param)] else null
  }

  ghost predicate Wired(nodes: map<Place, RadixNode>)
    reads nodes.Values`children, nodes.Values`paramChild
  {
    forall p <- nodes :: nodes[p] in nodes.Values && WiredAt(nodes, p, nodes[p])
  }

  /** Different places are different nodes. */
  ghost predicate OneToOne(nodes: map<Place, RadixNode>) {
    forall p, q :: p in nodes && q in nodes && nodes[p] == nodes[q] ==> p == q
  }

  ghost predicate Rooted(nodes: map<Place, RadixNode>, roots: map<string, RadixNode>) {
    && (forall verb :: verb in roots ==> Place(verb, []) in nodes && nodes[Place(verb, [])] == roots[verb])
    && (forall p <- nodes :: p.shape == [] ==> p.verb in roots)
  }

  /** A new node without children may be added below a node that already points at it, or as a root. */
  lemma WiredGrow(nodes: map<Place, RadixNode>, d: Place, child: RadixNode)
    requires d !in nodes && PrefixClosed(nodes)
    requires child.children == map[] && child.paramChild == null
    requires forall q <- nodes :: (d.shape == [] || q != Up(d)) ==> WiredAt(nodes, q, nodes[q])
    requires d.shape != [] ==> Up(d) in nodes && WiredAt(nodes[d := child], Up(d), nodes[Up(d)])
    ensures Wired(nodes[d := child])
    ensures PrefixClosed(nodes[d := child])
  {
    var nodes' := nodes[d := child];
    forall q <- nodes'
      ensures nodes'[q] in nodes'.Values && WiredAt(nodes', q, nodes'[q])
    {
      if q == d {
        forall key { DownUp(d, key); }
        assert forall key :: Down(d, key) !in nodes';
      } else if d.shape == [] || q != Up(d) {
        forall key { DownUp(q, key); }
        assert WiredAt(nodes, q, nodes[q]);
        assert forall key :: Down(q, key) != d;
      }
    }
  }

  lemma WiredGrowRoot(nodes: map<Place, RadixNode>, d: Place, child: RadixNode)
    requires Wired(nodes) && OneToOne(nodes)
    requires d !in nodes && PrefixClosed(nodes) && d.shape == [] && child !in nodes.Values
    requires child.children == map[] && child.paramChild == null
    ensures Wired(nodes[d := child]) && PrefixClosed(nodes[d := child]) && OneToOne(nodes[d := child])
  {
    hide WiredAt;
    assert forall q <- nodes :: nodes[q] in nodes.Values;
    WiredGrow(nodes, d, child);
  }

  /** The tries as values. */
  ghost function TriesOf(nodes: map<Place, RadixNode>): Tries
    reads nodes.Values`handler
  {
    map p | p in nodes :: assert nodes[p] in nodes.Values; Node(nodes[p].segment, nodes[p].handler)
  }

  lemma TriesGrow(nodes: map<Place, RadixNode>, d: Place, child: RadixNode)
    requires d !in nodes
    ensures TriesOf(nodes[d := child]) == TriesOf(nodes)[d := Node(child.segment, child.handler)]
  {
  }

  lemma WiredElsewhere(nodes: map<Place, RadixNode>, p: Place)
    requires Wired(nodes) && OneToOne(nodes) && p in nodes
    ensures forall q <- nodes :: q != p ==>
              WiredAt(nodes, q, nodes[q]) && nodes[q] != nodes[p] && nodes[q] in nodes.Values
    ensures WiredAt(nodes, p, nodes[p])
  {
  }

  lemma OneToOneGrow(nodes: map<Place, RadixNode>, d: Place, child: RadixNode)
    requires OneToOne(nodes) && child !in nodes.Values
    ensures OneToOne(nodes[d := child])
  {
  }

  lemma ChildAt(nodes: map<Place, RadixNode>, p: Place)
    requires Wired(nodes) && p in nodes
    ensures forall s {:trigger Down(p, Static(s))} :: s in nodes[p].children <==> Down(p, Static(s)) in nodes
    ensures forall s <- nodes[p].children :: nodes[p].children[s] == nodes[Down(p, Static(s))]
    ensures nodes[p].paramChild == if Down(p, Param) in nodes then nodes[Down(p, Param)] else null
    ensures nodes[p] in nodes.Values
    ensures forall q :: q in TriesOf(nodes) <==> q in nodes
  {
  }

  lemma RootOf(nodes: map<Place, RadixNode>, roots: map<string, RadixNode>, verb: string)
    requires Rooted(nodes, roots)
    ensures verb in roots <==> Place(verb, []) in nodes
    ensures verb in roots ==> nodes[Place(verb, [])] == roots[verb]
    ensures Place(verb, []) in nodes <==> Place(verb, []) in TriesOf(nodes)
  {
  }

  lemma RootedGrow(nodes: map<Place, RadixNode>, roots: map<string, RadixNode>, d: Place, child: RadixNode)
    requires Rooted(nodes, roots) && d !in nodes
    ensures d.shape != [] ==> Rooted(nodes[d := child], roots)
    ensures d.shape == [] ==> Rooted(nodes[d := child], roots[d.verb := child])
  {
  }

  method SetChild(node: RadixNode, ghost p: Place, key: Key, child: RadixNode, ghost nodes: map<Place, RadixNode>)
    requires WiredAt(nodes, p, node) && Down(p, key) !in nodes
    modifies node`children, node`paramChild
    ensures WiredAt(nodes[Down(p, key) := child], p, node)
  {
    match key {
      case Param => node.paramChild := child;
      case Static(text) => node.children := node.children[text := child];
    }
    forall a, b | Down(p, a) == Down(p, b)
      ensures a == b
    {
      DownUp(p, a);
      DownUp(p, b);
    }
  }

  class Router {
    var methodRoots: map<string, RadixNode>
    var defaultHandler: Option<HandlerId>
    ghost var nodes: map<Place, RadixNode>

    ghost predicate Valid()
      reads this, nodes.Values
    {
      Wired(nodes) && OneToOne(nodes) && PrefixClosed(nodes) && Rooted(nodes, methodRoots)
    }

    constructor ()
      ensures Valid() && nodes == map[] && defaultHandler == None
    {
      methodRoots, defaultHandler, nodes := map[], None, map[];
    }

    method GetOrCreateMethodRoot(verb: string) returns (node: RadixNode)
      requires Valid()
      modifies this`methodRoots, this`nodes
      ensures Valid() && Place(verb, []) in nodes && nodes[Place(verb, [])] == node
      ensures fresh(nodes.Values - old(nodes).Values)
      ensures TriesOf(nodes) == Grown(old(TriesOf(nodes)), verb, [])
    {
      hide Wired, PrefixClosed, OneToOne, TriesOf, Rooted;
      var root := Place(verb, []);
      RootOf(nodes, methodRoots, verb);
      if verb in methodRoots {
        node := methodRoots[verb];
      } else {
        node := new RadixNode("");
        assert node !in nodes.Values;
        WiredGrowRoot(nodes, root, node);
        TriesGrow(nodes, root, node);
        RootedGrow(nodes, methodRoots, root, node);
        methodRoots := methodRoots[verb := node];
        nodes := nodes[root := node];
      }
    }

    /** Hangs a new node below `node`, as a parameter child or under its text. */
    method Attach(node: RadixNode, ghost p: Place, key: Key, child: RadixNode)
      requires Valid() && p in nodes && nodes[p] == node && Down(p, key) !in nodes
      requires child !in nodes.Values && child.children == map[] && child.paramChild == null && child.handler == None
      modifies this`nodes, node`children, node`paramChild
      ensures Valid() && nodes == old(nodes)[Down(p, key) := child]
      ensures TriesOf(nodes) == old(TriesOf(nodes))[Down(p, key) := Node(child.segment, None)]
    {
      hide Wired, WiredAt, PrefixClosed, OneToOne, Rooted, TriesOf;
      ghost var d := Down(p, key);
      DownUp(p, key);
      WiredElsewhere(nodes, p);
      OneToOneGrow(nodes, d, child);
      SetChild(node, p, key, child, nodes);
      RootedGrow(nodes, methodRoots, d, child);
      TriesGrow(nodes, d, child);
      WiredGrow(nodes, d, child);
      nodes := nodes[d := child];
    }

    /** One turn of the registration loop: the child for this segment, created if it is missing. */
    method Descend(node: RadixNode, ghost p: Place, seg: string) returns (child: RadixNode)
      requires Valid() && p in nodes && nodes[p] == node && seg != ""
      modifies this`nodes, nodes.Values`children, nodes.Values`paramChild
      ensures Valid() && Down(p, KeyOf(seg)) in nodes && nodes[Down(p, KeyOf(seg))] == child
      ensures fresh(nodes.Values - old(nodes).Values)
      ensures var d := Down(p, KeyOf(seg));
              TriesOf(nodes) == if d in old(TriesOf(nodes)) then old(TriesOf(nodes))
                                else old(TriesOf(nodes))[d := Node(NameOf(seg), None)]
    {
      hide Wired, WiredAt, PrefixClosed, OneToOne, Rooted, TriesOf;
      ChildAt(nodes, p);
      if seg[0] == ':' {
        if node.paramChild == null {
          child := new RadixNode(seg[1..]);
          Attach(node, p, Param, child);
        } else {
          child := node.paramChild;
        }
      } else if seg !in node.children {
        child := new RadixNode(seg);
        Attach(node, p, Static(seg), child);
      } else {
        child := node.children[seg];
      }
    }

    method SetHandler(node: RadixNode, ghost p: Place, handler: Option<HandlerId>)
      requires Valid() && p in nodes && nodes[p] == node
      modifies node`handler
      ensures Valid() && nodes == old(nodes)
      ensures p in TriesOf(nodes)
      ensures TriesOf(nodes) == old(TriesOf(nodes))[p := old(TriesOf(nodes))[p].(handler := handler)]
    {
      hide Wired, PrefixClosed, Rooted;
      node.handler := handler;
    }

    /** Registers a handler for a pattern. */
    method AddRoute(verb: string, path: string, handler: Option<HandlerId>)
      requires Valid()
      modifies this`methodRoots, this`nodes
      modifies nodes.Values`children, nodes.Values`paramChild, nodes.Values`handler
      ensures Valid() && fresh(nodes.Values - old(nodes).Values)
      ensures TriesOf(nodes) == RouteTable.AddRoute(old(TriesOf(nodes)), verb, SplitPath(path), handler)
    {
      hide Wired, PrefixClosed, OneToOne, Rooted, TriesOf, Grown, SplitPath, SplitFrom, KeyOf, NameOf;
      var segments := Split(path);
      SplitIsClean(path);
      var node := GetOrCreateMethodRoot(verb);
      ghost var before := old(TriesOf(nodes));
      ghost var i := 0;
      GrownFacts(before, verb, segments);
      assert ShapeOf(segments[..0]) == [] && segments[..0] == [];
      for k := 0 to |segments|
        invariant Valid() && fresh(nodes.Values - old(nodes).Values)
        invariant Place(verb, ShapeOf(segments[..k])) in nodes
        invariant nodes[Place(verb, ShapeOf(segments[..k]))] == node
        invariant TriesOf(nodes) == Grown(before, verb, segments[..k])
      {
        var seg := segments[k];
        ghost var p := Place(verb, ShapeOf(segments[..k]));
        GrownPrefix(before, verb, segments, k);
        if seg != "" {   // Split yields no empty segment
          node := Descend(node, p, seg);
        }
      }
      assert segments[..|segments|] == segments;
      SetHandler(node, Place(verb, ShapeOf(segments)), handler);
    }

    /** The recursive search. `params` is the request's parameter table, which it updates as it
        goes; the handler it would call is returned. */
    method Match(node: RadixNode, ghost p: Place, segments: seq<string>, index: nat, params: map<string, string>)
      returns (handler: Option<HandlerId>, params': map<string, string>)
      requires Valid() && p in nodes && nodes[p] == node && index == |p.shape| <= |segments|
      ensures p in TriesOf(nodes)
      ensures var r := Search(TriesOf(nodes), p, segments, params);
              && params' == r.params
              && (handler.Some? <==> r.found.Some?)
              && (r.found.Some? ==> r.found.value in TriesOf(nodes) && TriesOf(nodes)[r.found.value].handler == handler)
      decreases |segments| - index
    {
      hide Wired, WiredAt, PrefixClosed, OneToOne, Rooted, Search, UrlDecode;
      params' := params;
      ChildAt(nodes, p);
      if index == |segments| {
        SearchEnd(TriesOf(nodes), p, segments, params);
        return node.handler, params';
      }
      var seg := segments[index];
      SearchStep(TriesOf(nodes), p, segments, params);
      if seg in node.children {
        handler, params' := Match(node.children[seg], Down(p, Static(seg)), segments, index + 1, params');
        if handler.Some? { return; }
      }
      if node.paramChild != null {
        var decoded := DecodeUrl(seg);
        params' := params'[node.paramChild.segment := decoded];
        handler, params' := Match(node.paramChild, Down(p, Param), segments, index + 1, params');
        if handler.Some? { return; }
      }
      handler := None;
    }

    /** Routing a request: `handled` is what the dispatcher reports, `called` the handler it ran. */
    method Route(verb: string, path: string, params: map<string, string>)
      returns (handled: bool, called: Option<HandlerId>, params': map<string, string>)
      requires Valid()
      ensures handled <==> called.Some?
      ensures var tries, root := TriesOf(nodes), Place(verb, []);
              if root !in tries then called == defaultHandler && params' == params
              else
                var r := Search(tries, root, SplitPath(path), map[]);
                && params' == r.params
                && if r.found.Some? then r.found.value in tries && called == tries[r.found.value].handler
                   else called == defaultHandler
    {
      hide Wired, WiredAt, PrefixClosed, OneToOne, Rooted, Search, SplitPath;
      RootOf(nodes, methodRoots, verb);
      params' := params;
      if verb in methodRoots {
        var segments := Split(path);
        called, params' := Match(methodRoots[verb], Place(verb, []), segments, 0, map[]);
        if called.Some? { return true, called, params'; }
      }
      if defaultHandler.Some? {
        return true, defaultHandler, params';
      }
      return false, None, params';
    }
  }
}
