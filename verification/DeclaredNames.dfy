/** What the handlers see: whether the names a route was declared with are those its request finds, when
    several routes share places of the trie. */
module DeclaredNames {
  import opened Strings
  import opened UrlPath
  import opened RouteTable
  import opened RouteParams

  function PlaceOf(route: Route): Place {
    Place(route.verb, ShapeOf(route.segments))
  }

  /** Segment i of the route declares a parameter. */
  predicate Declares(route: Route, i: int) {
    0 <= i < |route.segments| && KeyOf(route.segments[i]) == Param
  }

  /** The place of that parameter: the route's pattern up to it. */
  function ParamPlace(route: Route, i: int): Place
    requires 0 <= i < |route.segments|
  {
    Place(route.verb, ShapeOf(route.segments)[..i + 1])
  }

  /** Route a answers where its pattern is found: no later one has taken its place. */
  ghost predicate Answers(routes: seq<Route>, a: int, q: Place) {
    0 <= a < |routes| && PlaceOf(routes[a]) == q && forall b :: a < b < |routes| ==> PlaceOf(routes[b]) != q
  }

  /** Route a is the first one that goes through place p. */
  ghost predicate Opens(routes: seq<Route>, a: int, p: Place) {
    0 <= a < |routes| && Under(PlaceOf(routes[a]), p) && forall b :: 0 <= b < a ==> !Under(PlaceOf(routes[b]), p)
  }

  lemma {:induction false} FirstThrough(routes: seq<Route>, a: nat, p: Place) returns (b: nat)
    requires a < |routes| && Under(PlaceOf(routes[a]), p)
    ensures b <= a && Opens(routes, b, p)
  {
    b := a;
    if !Opens(routes, a, p) {
      var c :| 0 <= c < a && Under(PlaceOf(routes[c]), p);
      b := FirstThrough(routes, c, p);
    }
  }

  lemma {:induction false} LastOf(routes: seq<Route>, a: nat) returns (b: nat)
    requires a < |routes|
    ensures a <= b && Answers(routes, b, PlaceOf(routes[a]))
    decreases |routes| - a
  {
    b := a;
    if !Answers(routes, a, PlaceOf(routes[a])) {
      var c :| a < c < |routes| && PlaceOf(routes[c]) == PlaceOf(routes[a]);
      b := LastOf(routes, c);
    }
  }

  // ---- the tries of a list of routes ----

  lemma BuiltStep(routes: seq<Route>)
    requires routes != []
    ensures var last := routes[|routes| - 1];
            Built(routes) == AddRoute(Built(routes[..|routes| - 1]), last.verb, last.segments, Some(last.handler))
  {
  }

  /** The table of all routes: a pattern is in it if some route has it, with the handler of the last one. */
  lemma {:induction false} AnswersIff(routes: seq<Route>, q: Place)
    ensures q in Table(Built(routes)) <==> exists a :: Answers(routes, a, q)
    ensures forall a :: Answers(routes, a, q) ==>
              q in Table(Built(routes)) && Table(Built(routes))[q] == routes[a].handler
  {
    hide AddRoute, Table, Built;
    if routes == [] {
      NothingBuilt();
    } else {
      var front, last := routes[..|routes| - 1], routes[|routes| - 1];
      AnswersIff(front, q);
      BuiltStep(routes);
      AddIsUpdate(Built(front), last.verb, last.segments, Some(last.handler));
      if q == PlaceOf(last) {
        assert Answers(routes, |front|, q);
      } else {
        forall a | Answers(routes, a, q) ensures Answers(front, a, q) {
          assert a != |front|;
          assert forall b :: a < b < |front| ==> front[b] == routes[b];
        }
        assert forall a :: Answers(front, a, q) ==> Answers(routes, a, q);
      }
    }
  }

  lemma NothingBuilt()
    ensures Built([]) == map[] && Table(Built([])) == map[]
  {
  }

  lemma KeepsNames(tries: Tries, verb: string, segments: seq<string>, h: Option<HandlerId>, p: Place)
    requires p in tries
    ensures p in AddRoute(tries, verb, segments, h) && AddRoute(tries, verb, segments, h)[p].name == tries[p].name
  {
    GrownFacts(tries, verb, segments);
  }

  lemma AddedPlaces(tries: Tries, verb: string, segments: seq<string>, h: Option<HandlerId>, p: Place)
    requires p in AddRoute(tries, verb, segments, h) && p !in tries
    ensures Under(Place(verb, ShapeOf(segments)), p)
  {
    GrownPlaces(tries, verb, segments);
  }

  /** Every place was opened by some route. */
  lemma {:induction false} BuiltPlaces(routes: seq<Route>, p: Place) returns (a: nat)
    requires p in Built(routes)
    ensures Opens(routes, a, p)
  {
    hide AddRoute, Under, PlaceOf;
    var front, last := routes[..|routes| - 1], routes[|routes| - 1];
    BuiltStep(routes);
    if p in Built(front) {
      a := BuiltPlaces(front, p);
    } else {
      AddedPlaces(Built(front), last.verb, last.segments, Some(last.handler), p);
      a := FirstThrough(routes, |front|, p) by { PlaceOfIs(last); }
    }
  }

  lemma PlaceOfIs(route: Route)
    ensures PlaceOf(route) == Place(route.verb, ShapeOf(route.segments))
  {
  }

  /** A place has the name that the first route through it declares there. */
  lemma {:induction false} NamedByFirst(routes: seq<Route>, a: nat, p: Place)
    requires Opens(routes, a, p) && p.shape != []
    ensures |p.shape| <= |routes[a].segments|
    ensures p in Built(routes) && Built(routes)[p].name == NameOf(routes[a].segments[|p.shape| - 1])
  {
    hide AddRoute, Built;
    var front, last := routes[..|routes| - 1], routes[|routes| - 1];
    BuiltStep(routes);
    if a < |front| {
      NamedByFirst(front, a, p);
      KeepsNames(Built(front), last.verb, last.segments, Some(last.handler), p);
    } else {
      if p in Built(front) { var b := BuiltPlaces(front, p); }
      var i := |p.shape| - 1;
      assert ShapeOf(last.segments[..i + 1]) == ShapeOf(last.segments)[..i + 1] == p.shape;
      assert p == Place(last.verb, ShapeOf(last.segments[..i + 1]));
      NamesAfterAdd(Built(front), last.verb, last.segments, Some(last.handler), i);
    }
  }

  // ---- declared names and the trie's names ----

  /** Every parameter place is named as the route declares it. */
  ghost predicate KeepsItsNames(tries: Tries, route: Route) {
    forall i :: Declares(route, i) ==>
      ParamPlace(route, i) in tries && tries[ParamPlace(route, i)].name == NameOf(route.segments[i])
  }

  /** Two routes share a pattern up to a parameter, and call the parameter differently. */
  ghost predicate Clash(a: Route, b: Route, i: int) {
    Declares(a, i) && Under(PlaceOf(b), ParamPlace(a, i)) && NameOf(b.segments[i]) != NameOf(a.segments[i])
  }

  ghost predicate Agree(routes: seq<Route>, verb: string) {
    forall a, b, i :: a in routes && b in routes && a.verb == verb ==> !Clash(a, b, i)
  }

  lemma NameKept(routes: seq<Route>, a: nat, i: int) returns (b: nat)
    requires a < |routes| && Declares(routes[a], i)
    ensures b <= a && Opens(routes, b, ParamPlace(routes[a], i)) && i < |routes[b].segments|
    ensures ParamPlace(routes[a], i) in Built(routes)
    ensures Built(routes)[ParamPlace(routes[a], i)].name == NameOf(routes[b].segments[i])
  {
    hide Built;
    var p := ParamPlace(routes[a], i);
    b := FirstThrough(routes, a, p);
    NamedByFirst(routes, b, p);
  }

  /** The names all routes were declared with are those of their nodes exactly if the routes agree. */
  lemma DeclaredIff(routes: seq<Route>, verb: string)
    ensures (forall a <- routes :: a.verb == verb ==> KeepsItsNames(Built(routes), a)) <==> Agree(routes, verb)
  {
    hide Built, KeepsItsNames, Clash;
    if Agree(routes, verb) {
      forall a <- routes | a.verb == verb ensures KeepsItsNames(Built(routes), a) {
        AgreeingKeeps(routes, a);
      }
    } else {
      var a, b, i :| a in routes && b in routes && a.verb == verb && Clash(a, b, i);
      ClashingLoses(Built(routes), a, b, i);
    }
  }

  lemma AgreeingKeeps(routes: seq<Route>, route: Route)
    requires route in routes && Agree(routes, route.verb)
    ensures KeepsItsNames(Built(routes), route)
  {
    hide Built, NameOf, Under, PlaceOf;
    var a: nat :| a < |routes| && routes[a] == route;
    forall i | Declares(route, i)
      ensures var p := ParamPlace(route, i); p in Built(routes) && Built(routes)[p].name == NameOf(route.segments[i])
    {
      var b := NameKept(routes, a, i);
      assert !Clash(route, routes[b], i);
    }
  }

  lemma ClashingLoses(tries: Tries, a: Route, b: Route, i: int)
    requires Clash(a, b, i)
    ensures b.verb == a.verb && !(KeepsItsNames(tries, a) && KeepsItsNames(tries, b))
  {
    hide NameOf, Under;
    SharedPlace(a, b, i);
  }

  lemma SharedPlace(a: Route, b: Route, i: int)
    requires Declares(a, i) && Under(PlaceOf(b), ParamPlace(a, i))
    ensures b.verb == a.verb && Declares(b, i) && ParamPlace(b, i) == ParamPlace(a, i)
  {
    assert ShapeOf(b.segments)[..i + 1] == ShapeOf(a.segments)[..i + 1];
    assert ShapeOf(b.segments)[i] == ShapeOf(b.segments)[..i + 1][i];
  }

  // ---- what requests find ----

  /** The parameters are right for the route: each one it declares, under the name it declares it with, is
      the decoded segment at its own position. */
  ghost predicate BindsAll(route: Route, segments: seq<string>, params: map<string, string>) {
    forall i :: Declares(route, i) && i < |segments| ==>
      NameOf(route.segments[i]) in params && params[NameOf(route.segments[i])] == UrlDecode(segments[i])
  }

  /** If the request is answered, its parameters are right for the route that answers. */
  ghost predicate BindsDeclared(routes: seq<Route>, verb: string, segments: seq<string>) {
    var tries, root := Built(routes), Place(verb, []);
    root in tries && Search(tries, root, segments, map[]).found.Some? ==>
      var r := Search(tries, root, segments, map[]);
      forall a :: Answers(routes, a, r.found.value) ==> BindsAll(routes[a], segments, r.params)
  }

  /** Each parameter is called as the first route through its place calls it. */
  ghost predicate NamedAsFirst(routes: seq<Route>, route: Route) {
    forall i, b :: Declares(route, i) && Opens(routes, b, ParamPlace(route, i)) ==>
      NameOf(routes[b].segments[i]) == NameOf(route.segments[i])
  }

  ghost predicate NamesDiffer(route: Route) {
    forall i, j :: 0 <= i < j && Declares(route, i) && Declares(route, j) ==>
      NameOf(route.segments[i]) != NameOf(route.segments[j])
  }

  lemma FirstName(routes: seq<Route>, route: Route, i: int, b: int)
    requires Declares(route, i) && Opens(routes, b, ParamPlace(route, i))
    ensures 0 <= b < |routes| && i < |routes[b].segments| && ParamPlace(route, i) in Built(routes)
    ensures Built(routes)[ParamPlace(route, i)].name == NameOf(routes[b].segments[i])
  {
    hide Built, NameOf, Under;
    NamedByFirst(routes, b, ParamPlace(route, i));
  }

  lemma KeepsMeansFirst(routes: seq<Route>, route: Route)
    requires KeepsItsNames(Built(routes), route)
    ensures NamedAsFirst(routes, route)
  {
    hide Built, NameOf, KeyOf, Opens, ParamPlace;
    forall i, b | Declares(route, i) && Opens(routes, b, ParamPlace(route, i))
      ensures 0 <= b < |routes| && 0 <= i < |routes[b].segments| && 0 <= i < |route.segments|
      ensures NameOf(routes[b].segments[i]) == NameOf(route.segments[i])
    {
      FirstName(routes, route, i, b);
    }
  }

  lemma FirstMeansKeeps(routes: seq<Route>, a: nat)
    requires a < |routes| && NamedAsFirst(routes, routes[a])
    ensures KeepsItsNames(Built(routes), routes[a])
  {
    hide Built, NameOf, Opens, ParamPlace;
    forall i | Declares(routes[a], i)
      ensures var p := ParamPlace(routes[a], i);
              p in Built(routes) && Built(routes)[p].name == NameOf(routes[a].segments[i])
    {
      var b := NameKept(routes, a, i);
    }
  }

  /** The node whose binding of a name is left. */
  lemma BoundBy(tries: Tries, verb: string, segments: seq<string>, name: string) returns (v: Place)
    requires PrefixClosed(tries) && Place(verb, []) in tries
    requires name in Search(tries, Place(verb, []), segments, map[]).params
    ensures var r := Search(tries, Place(verb, []), segments, map[]);
            && Leaves(tries, verb, segments, r.found, v, name)
            && 1 <= |v.shape| <= |segments| && r.params[name] == UrlDecode(segments[|v.shape| - 1])
  {
    hide Search, PrefixClosed, Reached, Replay, Tour, Fits, UrlDecode;
    var root := Place(verb, []);
    var r := Search(tries, root, segments, map[]);
    RootOnWay(verb, segments);
    ParamsAreReplay(tries, root, segments, map[]);
    VisitsOnce(tries, root, segments, map[]);
    TourFacts(tries, root, segments, r.visited);
    var last := LastBindingWins(tries, segments, r.visited[1..], map[], name);
    v := last.value;
    VisitedIff(tries, root, segments, map[], v);
  }

  lemma FreshLength(shape: Shape, n: nat)
    ensures |FreshPath(shape, n)| == |shape|
    ensures forall i :: 0 <= i < |shape| && shape[i] == Param ==> |FreshPath(shape, n)[i]| == n + i
  {
  }

  lemma OnWayAt(v: Place, segments: seq<string>, i: nat)
    requires OnWay(v, segments) && i < |v.shape|
    ensures i < |segments| && (v.shape[i].Static? ==> v.shape[i].text == segments[i])
  {
    assert FitsKey(v.shape[i], segments[..|v.shape|][i]);
  }

  /** On a fresh path the search enters only nodes of the pattern it was made from. */
  lemma FreshReached(tries: Tries, v: Place, q: Place, n: nat)
    requires v in tries && Texts(tries, n) && OnWay(v, FreshPath(q.shape, n)) && Reached(Some(q), v)
    ensures v.shape <= q.shape
  {
    hide OnWay, Fits;
    FreshLength(q.shape, n);
    if Before(v.shape, q.shape) {
      var d :| 0 <= d < |v.shape| && d < |q.shape| && v.shape[d].Static? && q.shape[d] == Param;
      OnWayAt(v, FreshPath(q.shape, n), d);
    }
  }

  /** So there a parameter's segment is bound only to the name of its own node. */
  lemma FreshBinding(tries: Tries, q: Place, n: nat, name: string, i: nat)
    requires Grounded(tries) && Texts(tries, n) && n >= 1 && q in Table(tries) && i < |q.shape| && q.shape[i] == Param
    requires Place(q.verb, []) in tries
    requires var r := Search(tries, Place(q.verb, []), FreshPath(q.shape, n), map[]);
             name in r.params && r.params[name] == UrlDecode(FreshPath(q.shape, n)[i])
    ensures var node := q.(shape := q.shape[..i + 1]); node in tries && tries[node].name == name
  {
    hide Search, Texts, FreshPath, UrlDecode, Reached, OnWay, PrefixClosed, Table;
    FreshFinds(tries, q, n);
    var v := BoundBy(tries, q.verb, FreshPath(q.shape, n), name);
    FreshReached(tries, v, q, n);
    var k := |v.shape| - 1;
    assert v.shape == q.shape[..k + 1] && q.shape[k] == Param;
    if k < i { FreshDiffers(q.shape, n, k, i); }
    if i < k { FreshDiffers(q.shape, n, i, k); }
  }

  /** A route that gets its parameters on fresh paths uses no name twice and has all its nodes' names. */
  lemma FreshNeeds(tries: Tries, route: Route, n: nat)
    requires Grounded(tries) && Texts(tries, n) && n >= 1 && PlaceOf(route) in Table(tries)
    requires Place(route.verb, []) in tries
    requires var segments := FreshPath(PlaceOf(route).shape, n);
             BindsAll(route, segments, Search(tries, Place(route.verb, []), segments, map[]).params)
    ensures KeepsItsNames(tries, route) && NamesDiffer(route)
  {
    hide Search, Texts, FreshPath, UrlDecode, Grounded, NameOf, Table;
    var q := PlaceOf(route);
    forall i | Declares(route, i)
      ensures ParamPlace(route, i) in tries && tries[ParamPlace(route, i)].name == NameOf(route.segments[i])
    {
      FreshLength(q.shape, n);
      FreshBinding(tries, q, n, NameOf(route.segments[i]), i);
    }
    forall i, j | 0 <= i < j && Declares(route, i) && Declares(route, j)
      ensures NameOf(route.segments[i]) != NameOf(route.segments[j])
    {
      FreshDiffers(q.shape, n, i, j);
    }
  }

  /** If every route that can answer keeps its names and uses none twice, no name repeats on a path. */
  lemma NoneRepeats(routes: seq<Route>, verb: string)
    requires forall a, q :: Answers(routes, a, q) && q.verb == verb ==>
               KeepsItsNames(Built(routes), routes[a]) && NamesDiffer(routes[a])
    ensures NoRepeat(Built(routes), verb)
  {
    hide Built, NameOf, Table, KeepsItsNames, NamesDiffer, Answers, PrefixClosed;
    var tries := Built(routes);
    BuiltIsGrounded(routes);
    forall p, q | p in tries && q in tries && p.verb == q.verb == verb && IsParam(p) && IsParam(q) && p.shape < q.shape
      ensures tries[p].name != tries[q].name
    {
      var r :| r in Table(tries) && Under(r, q);
      AnswersIff(routes, r);
      var a :| Answers(routes, a, r);
      TwoNames(tries, routes, a, p, q, r);
    }
  }

  lemma TwoNames(tries: Tries, routes: seq<Route>, a: int, p: Place, q: Place, r: Place)
    requires Answers(routes, a, r) && Under(r, q) && p.verb == q.verb && p.shape < q.shape && IsParam(p) && IsParam(q)
    requires KeepsItsNames(tries, routes[a]) && NamesDiffer(routes[a])
    ensures p in tries && q in tries && tries[p].name != tries[q].name
  {
    hide NameOf;
    var i, j := |p.shape| - 1, |q.shape| - 1;
    NodeOf(tries, p, r);
    NodeOf(tries, q, r);
    assert Declares(routes[a], i) && Declares(routes[a], j);
    assert ParamPlace(routes[a], i) == p && ParamPlace(routes[a], j) == q;
  }

  lemma OwnIsDeclared(tries: Tries, route: Route, segments: seq<string>, params: map<string, string>)
    requires KeepsItsNames(tries, route) && |segments| == |route.segments|
    requires forall i :: 0 <= i < |segments| ==> BoundAt(tries, PlaceOf(route), segments, params, i)
    ensures BindsAll(route, segments, params)
  {
    hide NameOf, UrlDecode;
    forall i | Declares(route, i)
      ensures NameOf(route.segments[i]) in params && params[NameOf(route.segments[i])] == UrlDecode(segments[i])
    {
      assert BoundAt(tries, PlaceOf(route), segments, params, i);
      assert ParamPlace(route, i) == PlaceOf(route).(shape := PlaceOf(route).shape[..i + 1]);
    }
  }

  lemma BindsWhatItDeclares(routes: seq<Route>, verb: string, segments: seq<string>)
    requires BindsOwn(Built(routes), verb, segments)
    requires forall a, q :: Answers(routes, a, q) && q.verb == verb ==> KeepsItsNames(Built(routes), routes[a])
    ensures BindsDeclared(routes, verb, segments)
  {
    hide Built, Search, KeepsItsNames, BoundAt, BindsAll, Answers;
    var tries, root := Built(routes), Place(verb, []);
    if root in tries && Search(tries, root, segments, map[]).found.Some? {
      FoundFits(tries, verb, segments);
      var r := Search(tries, root, segments, map[]);
      forall a | Answers(routes, a, r.found.value)
        ensures 0 <= a < |routes| && BindsAll(routes[a], segments, r.params)
      {
        AnswerIsRoute(routes, a, r.found.value);
        OwnIsDeclared(tries, routes[a], segments, r.params);
      }
    }
  }

  lemma FoundFits(tries: Tries, verb: string, segments: seq<string>)
    requires Place(verb, []) in tries && Search(tries, Place(verb, []), segments, map[]).found.Some?
    ensures var q := Search(tries, Place(verb, []), segments, map[]).found.value;
            q.verb == verb && |q.shape| == |segments|
  {
    hide Search;
    RootOnWay(verb, segments);
    SearchSound(tries, Place(verb, []), segments, map[]);
  }

  /** Exactly when handlers can rely on the names they declare. Every request finds the parameters of the
      route that answers it bound, under their declared names, to its own segments, if and only if each route
      that can answer uses no name twice and calls each parameter as the first route through its place. */
  lemma BindsDeclaredIff(routes: seq<Route>, verb: string)
    requires AllClean(routes)
    ensures (forall segments :: Clean(segments) ==> BindsDeclared(routes, verb, segments))
            <==> forall a, q :: Answers(routes, a, q) && q.verb == verb ==>
                   NamedAsFirst(routes, routes[a]) && NamesDiffer(routes[a])
  {
    hide Built, Clean, AllClean, Grounded, Texts, NamedAsFirst, NamesDiffer, BindsDeclared, Answers,
         KeepsItsNames;
    forall a, q | Answers(routes, a, q)
      ensures 0 <= a < |routes| && (NamedAsFirst(routes, routes[a]) <==> KeepsItsNames(Built(routes), routes[a]))
    {
      AnswerIsRoute(routes, a, q);
      if NamedAsFirst(routes, routes[a]) { FirstMeansKeeps(routes, a); }
      if KeepsItsNames(Built(routes), routes[a]) { KeepsMeansFirst(routes, routes[a]); }
    }
    if forall a, q :: Answers(routes, a, q) && q.verb == verb ==>
         NamedAsFirst(routes, routes[a]) && NamesDiffer(routes[a])
    {
      NoneRepeats(routes, verb);
      forall segments ensures BindsDeclared(routes, verb, segments) {
        BindsOwnSegments(Built(routes), verb, segments);
        BindsWhatItDeclares(routes, verb, segments);
      }
    }
    if forall segments :: Clean(segments) ==> BindsDeclared(routes, verb, segments) {
      forall a, q | Answers(routes, a, q) && q.verb == verb
        ensures KeepsItsNames(Built(routes), routes[a]) && NamesDiffer(routes[a])
      {
        var segments := NeedsItsNames(routes, a, q);
      }
    }
  }

  lemma AnswerIsRoute(routes: seq<Route>, a: int, q: Place)
    requires Answers(routes, a, q)
    ensures 0 <= a < |routes| && q == PlaceOf(routes[a])
  {
  }

  /** A request that goes wrong for the route, unless it keeps its names and uses none twice. */
  lemma NeedsItsNames(routes: seq<Route>, a: int, q: Place) returns (segments: seq<string>)
    requires AllClean(routes) && Answers(routes, a, q)
    ensures Clean(segments)
    ensures BindsDeclared(routes, q.verb, segments) ==>
              KeepsItsNames(Built(routes), routes[a]) && NamesDiffer(routes[a])
  {
    hide Built, Search, Texts, FreshPath, Clean, AllClean, Grounded, KeepsItsNames, NamesDiffer, BindsAll, Table;
    var tries := Built(routes);
    BuiltIsGrounded(routes);
    var n := BuiltTexts(routes);
    AnswersIff(routes, q);
    segments := FreshPath(q.shape, n);
    FreshFinds(tries, q, n);
    if BindsDeclared(routes, q.verb, segments) { FreshNeeds(tries, routes[a], n); }
  }

  /** In particular, routes that agree and use no name twice can rely on their names. */
  lemma AgreeingBind(routes: seq<Route>, verb: string)
    requires AllClean(routes) && Agree(routes, verb)
    requires forall a <- routes :: a.verb == verb ==> NamesDiffer(a)
    ensures forall segments :: Clean(segments) ==> BindsDeclared(routes, verb, segments)
  {
    hide Agree, AllClean, Clean, BindsDeclared, NamesDiffer, NamedAsFirst, Built, KeepsItsNames;
    DeclaredIff(routes, verb);
    forall a, q: Place | Answers(routes, a, q) && q.verb == verb
      ensures 0 <= a < |routes| && NamedAsFirst(routes, routes[a]) && NamesDiffer(routes[a])
    {
      AnswerIsRoute(routes, a, q);
      KeepsMeansFirst(routes, routes[a]);
    }
    BindsDeclaredIff(routes, verb);
  }

  // ---- names of other routes ----

  /** The route that answers for this pattern declares this name. */
  ghost predicate Own(routes: seq<Route>, q: Place, name: string) {
    exists a, i :: Answers(routes, a, q) && Declares(routes[a], i) && NameOf(routes[a].segments[i]) == name
  }

  /** A request is answered, and finds a name that the route which answers it does not declare. */
  ghost predicate LeavesForeign(routes: seq<Route>, verb: string, segments: seq<string>) {
    var tries, root := Built(routes), Place(verb, []);
    && root in tries
    && Search(tries, root, segments, map[]).found.Some?
    && exists name <- Search(tries, root, segments, map[]).params ::
         !Own(routes, Search(tries, root, segments, map[]).found.value, name)
  }

  predicate Compatible(v: Shape, q: Shape) {
    |v| <= |q| && forall i :: 0 <= i < |v| ==> v[i] == Param || q[i] == Param || v[i] == q[i]
  }

  /** The least that a path must look like to go along v and to fit q. */
  function Merge(v: Shape, q: Shape): (u: Shape)
    requires |v| <= |q|
    ensures |u| == |q|
  {
    seq(|q|, i requires 0 <= i < |q| => if q[i] == Param && i < |v| then v[i] else q[i])
  }

  /** Parameter node v lies on pattern q or comes before it, some path goes along v and fits q, and no
      pattern before q takes all those paths away. */
  ghost predicate Alongside(tries: Tries, v: Place, q: Place) {
    && v in tries && q in Table(tries) && v.verb == q.verb && IsParam(v)
    && Compatible(v.shape, q.shape) && (v.shape <= q.shape || Before(v.shape, q.shape))
    && forall f <- Table(tries) :: f.verb == q.verb && Covers(f.shape, Merge(v.shape, q.shape)) ==>
         !Before(f.shape, q.shape)
  }

  /** And v has a name that is not declared for q. */
  ghost predicate Fork(routes: seq<Route>, v: Place, q: Place) {
    Alongside(Built(routes), v, q) && !Own(routes, q, Built(routes)[v].name)
  }

  lemma FitBoth(v: Shape, q: Shape, f: Shape, segments: seq<string>)
    requires Fits(q, segments) && |v| <= |segments| && Fits(v, segments[..|v|])
    ensures Compatible(v, q) && (Covers(f, Merge(v, q)) ==> Fits(f, segments))
  {
    forall i | 0 <= i < |v|
      ensures FitsKey(v[i], segments[i]) && FitsKey(q[i], segments[i])
    {
      assert FitsKey(v[i], segments[..|v|][i]);
    }
  }

  lemma BeforeOneWay(a: Shape, b: Shape, segments: seq<string>)
    requires Fits(a, segments) && Fits(b, segments) && Before(a, b)
    ensures a != b && !Before(b, a)
  {
    if a != b { BeforeIsTotal(a, b, segments); }
  }

  lemma LeftIsAlongside(tries: Tries, verb: string, segments: seq<string>, name: string) returns (v: Place)
    requires PrefixClosed(tries) && Place(verb, []) in tries
    requires var r := Search(tries, Place(verb, []), segments, map[]); r.found.Some? && name in r.params
    ensures var q := Search(tries, Place(verb, []), segments, map[]).found.value;
            q.verb == verb && Alongside(tries, v, q) && tries[v].name == name
  {
    hide Search, PrefixClosed, Before, Fits, Covers, Compatible, Merge, IsParam;
    var q := Search(tries, Place(verb, []), segments, map[]).found.value;
    NamesLeftIff(tries, verb, segments, name);
    v :| Leaves(tries, verb, segments, Some(q), v, name);
    RoutesLikeTheTable(tries, verb, segments, map[]);
    FitBoth(v.shape, q.shape, v.shape, segments);
    forall f <- Table(tries) | f.verb == verb && Covers(f.shape, Merge(v.shape, q.shape))
      ensures !Before(f.shape, q.shape)
    {
      FitBoth(v.shape, q.shape, f.shape, segments);
      if Before(f.shape, q.shape) { BeforeOneWay(f.shape, q.shape, segments); }
    }
  }

  lemma AlongsideIsLeft(tries: Tries, v: Place, q: Place, n: nat) returns (segments: seq<string>)
    requires PrefixClosed(tries) && Texts(tries, n) && n >= 1 && Alongside(tries, v, q)
    ensures Clean(segments) && Place(q.verb, []) in tries
    ensures var r := Search(tries, Place(q.verb, []), segments, map[]); r.found == Some(q) && tries[v].name in r.params
  {
    hide Search, PrefixClosed, Texts, Before, Clean, IsParam;
    var u, verb := Merge(v.shape, q.shape), q.verb;
    segments := FreshPath(u, n);
    MergeFacts(tries, v, q, n);
    hide Covers, Merge, FreshPath, Fits, Compatible, Drawn, Table;
    FreshIsClean(tries, u, n);
    PicksCovering(tries, q, u, n);
    var r := Search(tries, Place(verb, []), segments, map[]);
    assert Leaves(tries, verb, segments, r.found, v, tries[v].name);
    NamesLeftIff(tries, verb, segments, tries[v].name);
  }

  lemma MergeFacts(tries: Tries, v: Place, q: Place, n: nat)
    requires v in tries && q in tries && Compatible(v.shape, q.shape)
    ensures var u := Merge(v.shape, q.shape);
            Covers(q.shape, u) && Drawn(tries, u) && OnWay(v, FreshPath(u, n))
  {
  }

  lemma ForeignMeansFork(routes: seq<Route>, verb: string, segments: seq<string>) returns (v: Place, q: Place)
    requires LeavesForeign(routes, verb, segments)
    ensures Fork(routes, v, q) && q.verb == verb
  {
    hide Built, Search, PrefixClosed, Alongside, Own, Table;
    BuiltIsGrounded(routes);
    var r := Search(Built(routes), Place(verb, []), segments, map[]);
    q := r.found.value;
    var name :| name in r.params && !Own(routes, q, name);
    v := LeftIsAlongside(Built(routes), verb, segments, name);
  }

  lemma ForkMakesForeign(routes: seq<Route>, v: Place, q: Place) returns (segments: seq<string>)
    requires AllClean(routes) && Fork(routes, v, q)
    ensures Clean(segments) && LeavesForeign(routes, q.verb, segments)
  {
    hide Built, Search, PrefixClosed, Texts, Clean, AllClean, Own, Table;
    BuiltIsGrounded(routes);
    var n := BuiltTexts(routes);
    segments := AlongsideIsLeft(Built(routes), v, q, n);
  }

  /** Exactly when no request ever finds a name of another route: when the routes have no fork. */
  lemma ForeignIff(routes: seq<Route>, verb: string)
    requires AllClean(routes)
    ensures (forall segments :: Clean(segments) ==> !LeavesForeign(routes, verb, segments))
            <==> forall v, q: Place :: q.verb == verb ==> !Fork(routes, v, q)
  {
    hide LeavesForeign, Clean, AllClean, Fork;
    if segments :| Clean(segments) && LeavesForeign(routes, verb, segments) {
      var v, q := ForeignMeansFork(routes, verb, segments);
    } else {
      forall v, q: Place | q.verb == verb
        ensures !Fork(routes, v, q)
      {
        if Fork(routes, v, q) {
          var segments := ForkMakesForeign(routes, v, q);
          assert false;
        }
      }
    }
  }
}
