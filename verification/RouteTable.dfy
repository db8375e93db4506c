/** What routing means, without nodes: a table from pattern shapes to handlers, and the search of
    the trie written on values. */
module RouteTable {
  import opened Strings
  import opened UrlPath

  type HandlerId = nat

  /** One position of a pattern: fixed text, or a parameter that any segment fits. */
  datatype Key = Static(text: string) | Param

  type Shape = seq<Key>

  /** A node of a trie: the text or parameter name it was created with, and its handler. */
  datatype Node = Node(name: string, handler: Option<HandlerId>)

  /** The tries of all methods: a node for every registered prefix of every registered pattern. */
  datatype Place = Place(verb: string, shape: Shape)
  type Tries = map<Place, Node>

  function KeyOf(seg: string): Key {
    if seg != "" && seg[0] == ':' then Param else Static(seg)
  }

  function NameOf(seg: string): string {
    if seg != "" && seg[0] == ':' then seg[1..] else seg
  }

  function ShapeOf(segments: seq<string>): (shape: Shape)
    ensures |shape| == |segments|
  {
    seq(|segments|, i requires 0 <= i < |segments| => KeyOf(segments[i]))
  }

  /** A leading colon makes a parameter, of the name behind it, and nothing else does. */
  lemma KeyIff(seg: string, name: string)
    ensures KeyOf(":" + name) == Param && NameOf(":" + name) == name
    ensures (forall rest :: seg != ":" + rest) ==> KeyOf(seg) == Static(seg) && NameOf(seg) == seg
  {
    assert (":" + name)[1..] == name;
    if seg != "" && seg[0] == ':' { assert seg == ":" + seg[1..]; }
  }

  predicate FitsKey(key: Key, seg: string) {
    key == Param || key == Static(seg)
  }

  /** A pattern fits a request path of the same length whose segments match at every position. */
  predicate Fits(shape: Shape, segments: seq<string>) {
    |shape| == |segments| && forall i :: 0 <= i < |shape| ==> FitsKey(shape[i], segments[i])
  }

  /** At the first position where two patterns differ, `a` has fixed text and `b` a parameter. */
  predicate Before(a: Shape, b: Shape) {
    exists d :: 0 <= d < |a| && d < |b| && a[..d] == b[..d] && a[d].Static? && b[d] == Param
  }

  /** The flat table a set of tries stands for. */
  ghost function Table(tries: Tries): map<Place, HandlerId> {
    map p | p in tries && tries[p].handler.Some? :: tries[p].handler.value
  }

  function Up(p: Place): Place
    requires p.shape != []
  {
    p.(shape := p.shape[..|p.shape| - 1])
  }

  function Down(p: Place, key: Key): Place {
    p.(shape := p.shape + [key])
  }

  lemma DownUp(p: Place, key: Key)
    ensures Down(p, key).shape != [] && Up(Down(p, key)) == p
    ensures Down(p, key).shape[|p.shape|] == key
  {
  }

  ghost predicate PrefixClosed<V>(tries: map<Place, V>) {
    forall p <- tries :: p.shape != [] ==> Up(p) in tries
  }

  // ---- registration ----

  /** The tries after walking down a pattern, creating what is missing. A node that exists keeps
      the name it has. */
  ghost function Grown(tries: Tries, verb: string, segments: seq<string>): Tries {
    var p := Place(verb, ShapeOf(segments));
    var above := if segments == [] then tries else Grown(tries, verb, segments[..|segments| - 1]);
    if p in above then above
    else above[p := Node(if segments == [] then "" else NameOf(segments[|segments| - 1]), None)]
  }

  ghost function AddRoute(tries: Tries, verb: string, segments: seq<string>, handler: Option<HandlerId>): Tries {
    var p := Place(verb, ShapeOf(segments));
    var grown := Grown(tries, verb, segments);
    if p in grown then grown[p := grown[p].(handler := handler)] else grown
  }

  lemma GrownStep(tries: Tries, verb: string, segments: seq<string>)
    requires segments != []
    ensures var above := Grown(tries, verb, segments[..|segments| - 1]);
            var p := Place(verb, ShapeOf(segments));
            Grown(tries, verb, segments)
            == if p in above then above else above[p := Node(NameOf(segments[|segments| - 1]), None)]
    ensures ShapeOf(segments)[..|segments| - 1] == ShapeOf(segments[..|segments| - 1])
  {
  }

  /** The same, one segment after the other. */
  lemma GrownPrefix(tries: Tries, verb: string, segments: seq<string>, k: nat)
    requires k < |segments|
    ensures var p, next := Place(verb, ShapeOf(segments[..k])), Place(verb, ShapeOf(segments[..k + 1]));
            var above := Grown(tries, verb, segments[..k]);
            && Down(p, KeyOf(segments[k])) == next
            && Grown(tries, verb, segments[..k + 1])
               == if next in above then above else above[next := Node(NameOf(segments[k]), None)]
  {
    GrownStep(tries, verb, segments[..k + 1]);
    assert segments[..k + 1][..k] == segments[..k];
    hide Grown;
    assert Down(Place(verb, ShapeOf(segments[..k])), KeyOf(segments[k])) == Place(verb, ShapeOf(segments[..k + 1]));
  }

  lemma {:induction false} GrownFacts(tries: Tries, verb: string, segments: seq<string>)
    ensures Place(verb, ShapeOf(segments)) in Grown(tries, verb, segments)
    ensures forall p <- tries :: p in Grown(tries, verb, segments) && Grown(tries, verb, segments)[p] == tries[p]
    ensures forall p <- Grown(tries, verb, segments) :: p !in tries ==>
              Grown(tries, verb, segments)[p].handler == None && |p.shape| <= |segments|
    ensures PrefixClosed(tries) ==> PrefixClosed(Grown(tries, verb, segments))
  {
    if segments != [] {
      GrownFacts(tries, verb, segments[..|segments| - 1]);
      GrownStep(tries, verb, segments);
    }
  }

  /** Registration is a map update of the flat table: the pattern's own shape gets the handler (or
      loses it, when the handler is empty), and every other pattern keeps the one it had. */
  lemma AddIsUpdate(tries: Tries, verb: string, segments: seq<string>, handler: Option<HandlerId>)
    ensures var p := Place(verb, ShapeOf(segments));
            Table(AddRoute(tries, verb, segments, handler))
            == match handler case Some(h) => Table(tries)[p := h] case None => Table(tries) - {p}
    ensures PrefixClosed(tries) ==> PrefixClosed(AddRoute(tries, verb, segments, handler))
  {
    GrownFacts(tries, verb, segments);
  }

  /** Which name a position ends up with: the one of the route that created the node. */
  lemma {:induction false} NamesAfterAdd(tries: Tries, verb: string, segments: seq<string>,
                                         handler: Option<HandlerId>, i: nat)
    requires i < |segments|
    ensures var p := Place(verb, ShapeOf(segments[..i + 1]));
            var after := AddRoute(tries, verb, segments, handler);
            p in after && after[p].name == if p in tries then tries[p].name else NameOf(segments[i])
  {
    NamesGrown(tries, verb, segments, i);
    GrownFacts(tries, verb, segments);
  }

  lemma {:induction false} NamesGrown(tries: Tries, verb: string, segments: seq<string>, i: nat)
    requires i < |segments|
    ensures var p := Place(verb, ShapeOf(segments[..i + 1]));
            var after := Grown(tries, verb, segments);
            p in after && after[p].name == if p in tries then tries[p].name else NameOf(segments[i])
  {
    hide Grown;
    var front := segments[..|segments| - 1];
    GrownFacts(tries, verb, front);
    GrownStep(tries, verb, segments);
    if i == |segments| - 1 {
      assert segments[..i + 1] == segments;
    } else {
      assert front[..i + 1] == segments[..i + 1];
      NamesGrown(tries, verb, front, i);
    }
  }

  // ---- search ----

  datatype Outcome = Outcome(found: Option<Place>, params: map<string, string>, visited: seq<Place>)

  /** The recursive search from one node: the child with the segment's text first, then the
      parameter child, whose binding is made before it is entered and never taken back. */
  function Search(tries: Tries, at: Place, segments: seq<string>, params: map<string, string>): Outcome
    requires at in tries && |at.shape| <= |segments|
    decreases |segments| - |at.shape|
  {
    if |at.shape| == |segments| then
      Outcome(if tries[at].handler.Some? then Some(at) else None, params, [at])
    else
      var seg := segments[|at.shape|];
      var s, p := Down(at, Static(seg)), Down(at, Param);
      var first := if s in tries then Search(tries, s, segments, params) else Outcome(None, params, []);
      if first.found.Some? || p !in tries then
        first.(visited := [at] + first.visited)
      else
        var second := Search(tries, p, segments, first.params[tries[p].name := UrlDecode(seg)]);
        second.(visited := [at] + first.visited + second.visited)
  }

  /** One step of a search. */
  lemma SearchStep(tries: Tries, at: Place, segments: seq<string>, params: map<string, string>)
    requires at in tries && |at.shape| < |segments|
    ensures Static(segments[|at.shape|]) != Param
    ensures var seg := segments[|at.shape|];
            var s, p := Down(at, Static(seg)), Down(at, Param);
            var r := Search(tries, at, segments, params);
            var first := if s in tries then Search(tries, s, segments, params) else Outcome(None, params, []);
            && (first.found.Some? || p !in tries ==> r.found == first.found && r.params == first.params)
            && (first.found.None? && p in tries ==>
                  var second := Search(tries, p, segments, first.params[tries[p].name := UrlDecode(seg)]);
                  r.found == second.found && r.params == second.params)
  {
  }

  lemma SearchEnd(tries: Tries, at: Place, segments: seq<string>, params: map<string, string>)
    requires at in tries && |at.shape| == |segments|
    ensures var r := Search(tries, at, segments, params);
            r.found == (if tries[at].handler.Some? then Some(at) else None) && r.params == params
  {
  }

  ghost predicate Under(p: Place, at: Place) {
    p.verb == at.verb && at.shape <= p.shape
  }

  /** The nodes on the way fit the segments so far. */
  ghost predicate OnWay(at: Place, segments: seq<string>) {
    |at.shape| <= |segments| && Fits(at.shape, segments[..|at.shape|])
  }

  lemma RootOnWay(verb: string, segments: seq<string>)
    ensures OnWay(Place(verb, []), segments)
  {
  }

  /** What a search finds is registered, lies below its start, and fits. */
  lemma {:induction false} SearchSound(tries: Tries, at: Place, segments: seq<string>, params: map<string, string>)
    requires at in tries && OnWay(at, segments)
    ensures var r := Search(tries, at, segments, params);
            r.found.Some? ==>
              r.found.value in Table(tries) && Under(r.found.value, at) && Fits(r.found.value.shape, segments)
    decreases |segments| - |at.shape|
  {
    if |at.shape| == |segments| {
      assert segments[..|at.shape|] == segments;
    } else {
      var seg := segments[|at.shape|];
      var s, p := Down(at, Static(seg)), Down(at, Param);
      OnWayDown(at, segments);
      if s in tries { SearchSound(tries, s, segments, params); }
      if p in tries {
        var first := if s in tries then Search(tries, s, segments, params) else Outcome(None, params, []);
        SearchSound(tries, p, segments, first.params[tries[p].name := UrlDecode(seg)]);
      }
    }
  }

  lemma OnWayDown(at: Place, segments: seq<string>)
    requires OnWay(at, segments) && |at.shape| < |segments|
    ensures OnWay(Down(at, Static(segments[|at.shape|])), segments) && OnWay(Down(at, Param), segments)
  {
  }

  lemma {:induction false} EveryPrefix(tries: Tries, p: Place, n: nat)
    requires PrefixClosed(tries) && p in tries && n <= |p.shape|
    ensures p.(shape := p.shape[..n]) in tries
    decreases |p.shape|
  {
    if n < |p.shape| {
      EveryPrefix(tries, Up(p), n);
      assert Up(p).shape[..n] == p.shape[..n];
    } else {
      assert p.shape[..n] == p.shape;
    }
  }

  /** A fitting pattern below a node is the node itself, or lies below one of the two children the
      search tries. */
  lemma NextOnWay(tries: Tries, at: Place, segments: seq<string>, r: Place)
    requires PrefixClosed(tries) && r in tries && Under(r, at) && Fits(r.shape, segments)
    ensures |at.shape| == |segments| ==> r == at
    ensures |at.shape| < |segments| ==>
              var key := r.shape[|at.shape|];
              && key in {Static(segments[|at.shape|]), Param}
              && Down(at, key) in tries && Under(r, Down(at, key))
  {
    if |at.shape| < |segments| {
      EveryPrefix(tries, r, |at.shape| + 1);
      assert r.shape[..|at.shape| + 1] == at.shape + [r.shape[|at.shape|]];
    }
  }

  /** Patterns below the fixed-text child come before patterns below the parameter child. */
  lemma StaticBeforeParam(at: Place, text: string, a: Place, b: Place)
    requires Under(a, Down(at, Static(text))) && Under(b, Down(at, Param))
    ensures Before(a.shape, b.shape) && a != b
  {
    var d := |at.shape|;
    assert a.shape[..d + 1][..d] == at.shape && b.shape[..d + 1][..d] == at.shape;
    assert a.shape[d] == Down(at, Static(text)).shape[d] && b.shape[d] == Down(at, Param).shape[d];
    assert a.shape[..d] == at.shape == b.shape[..d];
  }

  /** The search misses nothing and picks the first fitting pattern in static-before-parameter
      order: every other registered pattern that fits comes later in that order. */
  lemma {:induction false} SearchPicksFirst(tries: Tries, at: Place, segments: seq<string>,
                                            params: map<string, string>, r: Place)
    requires PrefixClosed(tries) && at in tries && OnWay(at, segments)
    requires r in Table(tries) && Under(r, at) && Fits(r.shape, segments)
    ensures var found := Search(tries, at, segments, params).found;
            found.Some? && (r == found.value || Before(found.value.shape, r.shape))
    decreases |segments| - |at.shape|
  {
    NextOnWay(tries, at, segments, r);
    if |at.shape| < |segments| {
      var seg := segments[|at.shape|];
      var s, p := Down(at, Static(seg)), Down(at, Param);
      OnWayDown(at, segments);
      var first := if s in tries then Search(tries, s, segments, params) else Outcome(None, params, []);
      if s in tries { SearchSound(tries, s, segments, params); }
      if r.shape[|at.shape|] == Static(seg) {
        SearchPicksFirst(tries, s, segments, params, r);
      } else if first.found.Some? {
        StaticBeforeParam(at, seg, first.found.value, r);
      } else {
        SearchPicksFirst(tries, p, segments, first.params[tries[p].name := UrlDecode(seg)], r);
      }
    }
  }

  /** Routing against the flat table: a handler is found exactly when some pattern registered for
      the method fits, and it is that of the fitting pattern that comes first. */
  lemma RoutesLikeTheTable(tries: Tries, verb: string, segments: seq<string>, params: map<string, string>)
    requires PrefixClosed(tries)
    ensures Place(verb, []) !in tries ==> forall r <- Table(tries) :: r.verb != verb
    ensures Place(verb, []) in tries ==>
              var found := Search(tries, Place(verb, []), segments, params).found;
              && (found.None? <==> forall r <- Table(tries) :: r.verb == verb ==> !Fits(r.shape, segments))
              && (found.Some? ==>
                    && found.value in Table(tries) && found.value.verb == verb && Fits(found.value.shape, segments)
                    && forall r <- Table(tries) :: r.verb == verb && Fits(r.shape, segments) ==>
                         r == found.value || Before(found.value.shape, r.shape))
  {
    var root := Place(verb, []);
    forall r | r in tries && r.verb == verb
      ensures root in tries
    {
      EveryPrefix(tries, r, 0);
      assert r.shape[..0] == [];
    }
    if root in tries {
      SearchSound(tries, root, segments, params);
      forall r <- Table(tries) | r.verb == verb && Fits(r.shape, segments)
        ensures var found := Search(tries, root, segments, params).found;
                found.Some? && (r == found.value || Before(found.value.shape, r.shape))
      {
        SearchPicksFirst(tries, root, segments, params, r);
      }
    }
  }

  /** The order leaves no choice: of two different patterns that fit one path, exactly one comes
      before the other. */
  lemma BeforeIsTotal(a: Shape, b: Shape, segments: seq<string>)
    requires Fits(a, segments) && Fits(b, segments) && a != b
    ensures Before(a, b) <==> !Before(b, a)
  {
    var d := 0;
    while d < |a| && a[d] == b[d]
      invariant 0 <= d <= |a| && a[..d] == b[..d]
    {
      d := d + 1;
    }
    assert d < |a|;
    assert a[..d] == b[..d];
    forall e | 0 <= e < |a| && a[..e] == b[..e] && a[e] != b[e]
      ensures e == d
    {
    }
  }

  /** A sequence of different nodes, all below `at` and all fitting the path so far. */
  ghost predicate Tour(tries: Tries, at: Place, segments: seq<string>, visited: seq<Place>) {
    && (forall v <- visited :: v in tries && Under(v, at) && OnWay(v, segments))
    && (forall i, j :: 0 <= i < j < |visited| ==> visited[i] != visited[j])
  }

  lemma TourDown(tries: Tries, at: Place, key: Key, segments: seq<string>, visited: seq<Place>)
    requires at in tries && OnWay(at, segments) && Tour(tries, Down(at, key), segments, visited)
    ensures Tour(tries, at, segments, [at] + visited)
  {
  }

  lemma ToursJoin(tries: Tries, at: Place, text: string, segments: seq<string>, a: seq<Place>, b: seq<Place>)
    requires at in tries && OnWay(at, segments)
    requires Tour(tries, Down(at, Static(text)), segments, a) && Tour(tries, Down(at, Param), segments, b)
    ensures Tour(tries, at, segments, [at] + a + b)
  {
    TourDown(tries, at, Static(text), segments, a);
    TourDown(tries, at, Param, segments, b);
    forall i, j | 0 <= i < |a| && 0 <= j < |b|
      ensures a[i] != b[j]
    {
      assert a[i] in a && b[j] in b;
      StaticBeforeParam(at, text, a[i], b[j]);
    }
    hide Under, OnWay, Down;
    var all := [at] + a + b;
    forall i, j | 0 <= i < j < |all|
      ensures all[i] != all[j]
    {
      if 1 <= i && j <= |a| { assert all[i] == ([at] + a)[i] && all[j] == ([at] + a)[j]; }
      if i == 0 && j <= |a| { assert all[j] == ([at] + a)[j] && ([at] + a)[0] == at; }
      if i > |a| { assert all[i] == ([at] + b)[i - |a|] && all[j] == ([at] + b)[j - |a|]; }
      if i == 0 && j > |a| { assert all[j] == ([at] + b)[j - |a|] && ([at] + b)[0] == at; }
      if 1 <= i <= |a| < j { assert all[i] == a[i - 1] && all[j] == b[j - |a| - 1]; }
    }
    forall v <- all
      ensures v in tries && Under(v, at) && OnWay(v, segments)
    {
      assert v in [at] + a || v in [at] + b;
    }
  }

  /** A search visits each node at most once, and only nodes that fit the path so far. */
  lemma {:induction false} VisitsOnce(tries: Tries, at: Place, segments: seq<string>, params: map<string, string>)
    requires at in tries && OnWay(at, segments)
    ensures Tour(tries, at, segments, Search(tries, at, segments, params).visited)
    decreases |segments| - |at.shape|
  {
    hide Tour;
    if |at.shape| == |segments| {
      TourAlone(tries, at, segments);
    } else {
      var seg := segments[|at.shape|];
      var s, p := Down(at, Static(seg)), Down(at, Param);
      OnWayDown(at, segments);
      TourNone(tries, s, segments);
      TourNone(tries, p, segments);
      var first := if s in tries then Search(tries, s, segments, params) else Outcome(None, params, []);
      if s in tries { VisitsOnce(tries, s, segments, params); }
      if first.found.Some? || p !in tries {
        TourDown(tries, at, Static(seg), segments, first.visited);
      } else {
        var bound := first.params[tries[p].name := UrlDecode(seg)];
        VisitsOnce(tries, p, segments, bound);
        ToursJoin(tries, at, seg, segments, first.visited, Search(tries, p, segments, bound).visited);
      }
    }
  }

  lemma TourNone(tries: Tries, at: Place, segments: seq<string>)
    ensures Tour(tries, at, segments, [])
  {
  }

  lemma TourAlone(tries: Tries, at: Place, segments: seq<string>)
    requires at in tries && OnWay(at, segments)
    ensures Tour(tries, at, segments, [at])
  {
  }

  // ---- parameters ----

  ghost predicate IsParam(p: Place) {
    p.shape != [] && p.shape[|p.shape| - 1] == Param
  }

  ghost predicate Within(tries: Tries, segments: seq<string>, visited: seq<Place>) {
    forall v <- visited :: v in tries && |v.shape| <= |segments|
  }

  /** The bindings made by entering the nodes of `visited` one after the other. */
  ghost function Replay(tries: Tries, segments: seq<string>, visited: seq<Place>,
                        params: map<string, string>): map<string, string>
    requires Within(tries, segments, visited)
  {
    if visited == [] then params
    else
      var v := visited[|visited| - 1];
      var before := Replay(tries, segments, visited[..|visited| - 1], params);
      if IsParam(v) then before[tries[v].name := UrlDecode(segments[|v.shape| - 1])] else before
  }

  lemma {:induction false} ReplayConcat(tries: Tries, segments: seq<string>, a: seq<Place>, b: seq<Place>,
                                        params: map<string, string>)
    requires Within(tries, segments, a) && Within(tries, segments, b)
    ensures Within(tries, segments, a + b)
    ensures Replay(tries, segments, a + b, params) == Replay(tries, segments, b, Replay(tries, segments, a, params))
  {
    if b == [] {
      assert a + b == a;
    } else {
      ReplayConcat(tries, segments, a, b[..|b| - 1], params);
      assert (a + b)[..|a + b| - 1] == a + b[..|b| - 1];
    }
  }

  lemma ReplayOne(tries: Tries, segments: seq<string>, v: Place, params: map<string, string>)
    requires Within(tries, segments, [v])
    ensures Replay(tries, segments, [v], params)
            == if IsParam(v) then params[tries[v].name := UrlDecode(segments[|v.shape| - 1])] else params
  {
  }

  /** Nothing that was bound in a failed branch is taken back: the parameters a search leaves are
      those of all the nodes it entered, in order. */
  lemma {:induction false} ParamsAreReplay(tries: Tries, at: Place, segments: seq<string>, params: map<string, string>)
    requires at in tries && |at.shape| <= |segments|
    ensures var r := Search(tries, at, segments, params);
            && r.visited != [] && r.visited[0] == at && Within(tries, segments, r.visited)
            && Within(tries, segments, r.visited[1..])
            && r.params == Replay(tries, segments, r.visited[1..], params)
    decreases |segments| - |at.shape|
  {
    hide Replay;
    ReplayNone(tries, segments, params);
    if |at.shape| < |segments| {
      var seg := segments[|at.shape|];
      var s, p := Down(at, Static(seg)), Down(at, Param);
      var first := if s in tries then Search(tries, s, segments, params) else Outcome(None, params, []);
      if s in tries {
        ParamsAreReplay(tries, s, segments, params);
        EnterAndReplay(tries, segments, s, first.visited, params);
      }
      if first.found.None? && p in tries {
        var bound := first.params[tries[p].name := UrlDecode(seg)];
        var second := Search(tries, p, segments, bound);
        ParamsAreReplay(tries, p, segments, bound);
        ReplayBoth(tries, segments, at, p, first.visited, second.visited, params);
      } else {
        assert ([at] + first.visited)[1..] == first.visited;
      }
    }
  }

  lemma ReplayBoth(tries: Tries, segments: seq<string>, at: Place, p: Place, a: seq<Place>, b: seq<Place>,
                   params: map<string, string>)
    requires Within(tries, segments, a) && at in tries && |at.shape| <= |segments|
    requires b != [] && b[0] == p && IsParam(p) && Within(tries, segments, b)
    ensures ([at] + a + b)[1..] == a + b && Within(tries, segments, a + b) && Within(tries, segments, [at] + a + b)
    ensures p in tries && |p.shape| <= |segments| && Within(tries, segments, b[1..])
    ensures Replay(tries, segments, a + b, params)
            == Replay(tries, segments, b[1..],
                      Replay(tries, segments, a, params)[tries[p].name := UrlDecode(segments[|p.shape| - 1])])
  {
    ReplayConcat(tries, segments, a, b, params);
    EnterAndReplay(tries, segments, p, b, Replay(tries, segments, a, params));
  }

  lemma ReplayNone(tries: Tries, segments: seq<string>, params: map<string, string>)
    ensures Replay(tries, segments, [], params) == params
  {
  }

  lemma EnterAndReplay(tries: Tries, segments: seq<string>, v: Place, visited: seq<Place>, params: map<string, string>)
    requires visited != [] && visited[0] == v && Within(tries, segments, visited)
    ensures v in tries && |v.shape| <= |segments| && Within(tries, segments, visited[1..])
    ensures Replay(tries, segments, visited, params)
            == Replay(tries, segments, visited[1..],
                      if IsParam(v) then params[tries[v].name := UrlDecode(segments[|v.shape| - 1])] else params)
  {
    assert visited == [v] + visited[1..];
    ReplayConcat(tries, segments, [v], visited[1..], params);
    ReplayOne(tries, segments, v, params);
  }

  /** The value of a name is that of the last node entered with this name. */
  lemma {:induction false} LastBindingWins(tries: Tries, segments: seq<string>, visited: seq<Place>,
                                           params: map<string, string>, name: string)
    returns (last: Option<Place>)
    requires Within(tries, segments, visited)
    ensures last.None? ==> (forall v <- visited :: !(IsParam(v) && tries[v].name == name))
                           && (name in Replay(tries, segments, visited, params) <==> name in params)
                           && (name in params ==> Replay(tries, segments, visited, params)[name] == params[name])
    ensures last.Some? ==> var v := last.value;
                           && v in visited && IsParam(v) && tries[v].name == name
                           && name in Replay(tries, segments, visited, params)
                           && Replay(tries, segments, visited, params)[name] == UrlDecode(segments[|v.shape| - 1])
  {
    last := None;
    if visited != [] {
      var v, front := visited[|visited| - 1], visited[..|visited| - 1];
      assert visited == front + [v];
      if IsParam(v) && tries[v].name == name {
        last := Some(v);
      } else {
        last := LastBindingWins(tries, segments, front, params, name);
      }
    }
  }
}
