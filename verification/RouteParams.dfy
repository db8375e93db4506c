/** What a search leaves in the parameters of its request, under the names of the trie's nodes: when those of
    the pattern found are bound to its own segments, and which others are left among them. */
module RouteParams {
  import opened Strings
  import opened UrlPath
  import opened RouteTable

  // ---- tries as registration builds them ----

  datatype Route = Route(verb: string, segments: seq<string>, handler: HandlerId)

  ghost function Built(routes: seq<Route>): Tries {
    if routes == [] then map[]
    else
      var last := routes[|routes| - 1];
      AddRoute(Built(routes[..|routes| - 1]), last.verb, last.segments, Some(last.handler))
  }

  predicate AllClean(routes: seq<Route>) {
    forall i :: 0 <= i < |routes| ==> Clean(routes[i].segments)
  }

  /** Every node lies on the way to a registered pattern. */
  ghost predicate Grounded(tries: Tries) {
    PrefixClosed(tries) && forall p <- tries :: exists r <- Table(tries) :: Under(r, p)
  }

  lemma {:induction false} GrownPlaces(tries: Tries, verb: string, segments: seq<string>)
    ensures forall p <- Grown(tries, verb, segments) :: p !in tries ==> p.verb == verb && p.shape <= ShapeOf(segments)
  {
    if segments != [] {
      GrownPlaces(tries, verb, segments[..|segments| - 1]);
      GrownStep(tries, verb, segments);
    }
  }

  lemma AddedIsGrounded(tries: Tries, verb: string, segments: seq<string>, h: HandlerId)
    requires Grounded(tries)
    ensures Grounded(AddRoute(tries, verb, segments, Some(h)))
  {
    var after := AddRoute(tries, verb, segments, Some(h));
    var end := Place(verb, ShapeOf(segments));
    AddIsUpdate(tries, verb, segments, Some(h));
    GrownPlaces(tries, verb, segments);
    GrownFacts(tries, verb, segments);
    hide Grown, Table;
    forall p <- after
      ensures exists r <- Table(after) :: Under(r, p)
    {
      if p in tries {
        var r :| r in Table(tries) && Under(r, p);
        assert r in Table(after);
      } else {
        assert end in Table(after) && Under(end, p);
      }
    }
  }

  lemma {:induction false} BuiltIsGrounded(routes: seq<Route>)
    ensures Grounded(Built(routes))
  {
    if routes != [] {
      BuiltIsGrounded(routes[..|routes| - 1]);
      var last := routes[|routes| - 1];
      AddedIsGrounded(Built(routes[..|routes| - 1]), last.verb, last.segments, last.handler);
    }
  }

  /** Fixed texts are usable as path segments, and shorter than n. */
  ghost predicate Texts(tries: Tries, n: nat) {
    forall p, i :: p in tries && 0 <= i < |p.shape| && p.shape[i].Static? ==>
      p.shape[i].text != "" && '/' !in p.shape[i].text && |p.shape[i].text| < n
  }

  lemma {:induction false} PieceOfConcat(pieces: seq<string>, i: nat)
    requires i < |pieces|
    ensures |pieces[i]| <= |Concat(pieces)|
  {
    if i > 0 { PieceOfConcat(pieces[1..], i - 1); }
  }

  lemma AddedTexts(tries: Tries, verb: string, segments: seq<string>, h: HandlerId, n: nat)
    requires Texts(tries, n) && Clean(segments)
    ensures Texts(AddRoute(tries, verb, segments, Some(h)), n + |Concat(segments)| + 1)
  {
    GrownPlaces(tries, verb, segments);
    GrownFacts(tries, verb, segments);
    hide Grown;
    forall i | 0 <= i < |segments|
      ensures |segments[i]| <= |Concat(segments)|
    {
      PieceOfConcat(segments, i);
    }
    hide Concat;
  }

  lemma {:induction false} BuiltTexts(routes: seq<Route>) returns (n: nat)
    requires AllClean(routes)
    ensures n >= 1 && Texts(Built(routes), n)
  {
    n := 1;
    if routes != [] {
      n := BuiltTexts(routes[..|routes| - 1]);
      var last := routes[|routes| - 1];
      AddedTexts(Built(routes[..|routes| - 1]), last.verb, last.segments, last.handler, n);
      n := n + |Concat(last.segments)| + 1;
    }
  }

  // ---- a path that fits a shape and as little else as possible ----

  function Letters(n: nat): string { seq(n, _ => 'a') }

  lemma LettersDecode(n: nat)
    ensures UrlDecode(Letters(n)) == Letters(n)
  {
    DecodeIsIdentityIff(Letters(n));
  }

  /** Fixed text where the shape has it, elsewhere segments that no pattern mentions and that all
      differ. */
  function FreshPath(shape: Shape, n: nat): seq<string> {
    seq(|shape|, i requires 0 <= i < |shape| => match shape[i] case Static(t) => t case Param => Letters(n + i))
  }

  /** Shape f accepts whatever u does, as long as parameters of u are not met by luck. */
  predicate Covers(f: Shape, u: Shape) {
    |f| == |u| && forall i :: 0 <= i < |f| ==> f[i] == Param || f[i] == u[i]
  }

  /** A fresh path is fitted by the patterns that cover its shape, and no others. */
  lemma FitsFreshIff(tries: Tries, p: Place, u: Shape, n: nat)
    requires p in tries && Texts(tries, n)
    ensures Fits(p.shape, FreshPath(u, n)) <==> Covers(p.shape, u)
  {
    if |p.shape| == |u| {
      forall i | 0 <= i < |u|
        ensures FitsKey(p.shape[i], FreshPath(u, n)[i]) <==> p.shape[i] == Param || p.shape[i] == u[i]
      {
        if u[i] == Param && p.shape[i].Static? { assert |FreshPath(u, n)[i]| == n + i; }
      }
    }
  }

  /** All fixed texts of a shape are registered ones. */
  ghost predicate Drawn(tries: Tries, u: Shape) {
    forall i :: 0 <= i < |u| && u[i].Static? ==> exists p <- tries :: i < |p.shape| && p.shape[i] == u[i]
  }

  lemma OwnShapeIsDrawn(tries: Tries, p: Place)
    requires p in tries
    ensures Drawn(tries, p.shape)
  {
  }

  lemma FreshIsClean(tries: Tries, u: Shape, n: nat)
    requires Texts(tries, n) && n >= 1 && Drawn(tries, u)
    ensures Clean(FreshPath(u, n))
  {
  }

  /** A search on a fresh path: the pattern whose shape it was made from is picked, unless another one
      that covers the shape comes first. */
  lemma PicksCovering(tries: Tries, q: Place, u: Shape, n: nat)
    requires PrefixClosed(tries) && Texts(tries, n) && q in Table(tries) && Covers(q.shape, u)
    requires forall f <- Table(tries) :: f.verb == q.verb && Covers(f.shape, u) ==> !Before(f.shape, q.shape)
    ensures Place(q.verb, []) in tries
    ensures Search(tries, Place(q.verb, []), FreshPath(u, n), map[]).found == Some(q)
  {
    hide Search, Fits, FreshPath, Covers, Before, Texts;
    RoutesLikeTheTable(tries, q.verb, FreshPath(u, n), map[]);
    FitsFreshIff(tries, q, u, n);
    var found := Search(tries, Place(q.verb, []), FreshPath(u, n), map[]).found;
    FitsFreshIff(tries, found.value, u, n);
  }

  // ---- own parameters ----

  /** The request's parameters after a successful search are right as far as the pattern found goes:
      each of its parameters, under its node's name, is the decoded segment at its own position. */
  ghost predicate BindsOwn(tries: Tries, verb: string, segments: seq<string>) {
    var root := Place(verb, []);
    root in tries && Search(tries, root, segments, map[]).found.Some? ==>
      var r := Search(tries, root, segments, map[]);
      forall i :: 0 <= i < |segments| ==> BoundAt(tries, r.found.value, segments, r.params, i)
  }

  ghost predicate BoundAt(tries: Tries, q: Place, segments: seq<string>, params: map<string, string>, i: nat) {
    i < |q.shape| && i < |segments| && q.shape[i] == Param ==>
      var node := q.(shape := q.shape[..i + 1]);
      node in tries && tries[node].name in params && params[tries[node].name] == UrlDecode(segments[i])
  }

  /** No parameter name occurs twice on one path of the trie. */
  ghost predicate NoRepeat(tries: Tries, verb: string) {
    forall p, q :: p in tries && q in tries && p.verb == q.verb == verb
                   && IsParam(p) && IsParam(q) && p.shape < q.shape ==>
      tries[p].name != tries[q].name
  }

  /** All nodes entered after a node on the way to the pattern found lie below that node. */
  lemma {:induction false} FoundSplitsVisit(tries: Tries, at: Place, segments: seq<string>,
                                            params: map<string, string>, n: nat)
    returns (pre: seq<Place>, post: seq<Place>)
    requires at in tries && OnWay(at, segments)
    requires Search(tries, at, segments, params).found.Some?
    requires |at.shape| <= n <= |segments|
    ensures var r := Search(tries, at, segments, params);
            var q := r.found.value;
            && |q.shape| == |segments|
            && var node := q.(shape := q.shape[..n]);
            && node in tries
            && r.visited == pre + [node] + post
            && (n > |at.shape| ==> pre != [])
            && forall v <- post :: v.verb == node.verb && node.shape < v.shape
    decreases |segments| - |at.shape|
  {
    hide OnWay, Fits, Table, Tour, Before, UrlDecode;
    if n == |at.shape| {
      pre := [];
      post := FoundHere(tries, at, segments, params);
    } else {
      var seg := segments[|at.shape|];
      var s, p := Down(at, Static(seg)), Down(at, Param);
      OnWayDown(at, segments);
      var first := if s in tries then Search(tries, s, segments, params) else Outcome(None, params, []);
      if first.found.Some? {
        pre, post := FoundSplitsVisit(tries, s, segments, params, n);
        pre := [at] + pre;
      } else {
        var bound := first.params[tries[p].name := UrlDecode(seg)];
        pre, post := FoundSplitsVisit(tries, p, segments, bound, n);
        var node := Search(tries, p, segments, bound).found.value;
        Regroup([at] + first.visited, pre, [node.(shape := node.shape[..n])], post);
        pre := [at] + first.visited + pre;
      }
    }
  }

  lemma Regroup<T>(a: seq<T>, b: seq<T>, c: seq<T>, d: seq<T>)
    ensures a + (b + c + d) == (a + b) + c + d
  {
  }

  lemma FoundHere(tries: Tries, at: Place, segments: seq<string>, params: map<string, string>)
    returns (post: seq<Place>)
    requires at in tries && OnWay(at, segments)
    requires Search(tries, at, segments, params).found.Some?
    ensures var r := Search(tries, at, segments, params);
            var q := r.found.value;
            && |q.shape| == |segments| && |at.shape| <= |segments| && q.(shape := q.shape[..|at.shape|]) == at
            && r.visited == [] + [at] + post
            && forall v <- post :: v.verb == at.verb && at.shape < v.shape
  {
    hide Search, Tour;
    var r := Search(tries, at, segments, params);
    SearchSound(tries, at, segments, params);
    VisitsOnce(tries, at, segments, params);
    ParamsAreReplay(tries, at, segments, params);
    BelowFirst(tries, at, segments, r.visited);
    post := r.visited[1..];
    assert r.visited == [] + [at] + post;
  }

  lemma BelowFirst(tries: Tries, at: Place, segments: seq<string>, visited: seq<Place>)
    requires Tour(tries, at, segments, visited) && visited != [] && visited[0] == at
    ensures forall v <- visited[1..] :: v.verb == at.verb && at.shape < v.shape
  {
    forall v <- visited[1..]
      ensures v.verb == at.verb && at.shape < v.shape
    {
      var i :| 0 <= i < |visited[1..]| && visited[1..][i] == v;
      assert visited[i + 1] == v && visited[0] != visited[i + 1];
      assert v in visited;
    }
  }

  lemma Entered(tries: Tries, root: Place, segments: seq<string>, params: map<string, string>, n: nat)
    returns (pre: seq<Place>, post: seq<Place>)
    requires root in tries && root.shape == [] && 1 <= n <= |segments|
    requires Search(tries, root, segments, params).found.Some?
    ensures var r := Search(tries, root, segments, params);
            var q := r.found.value;
            && |q.shape| == |segments|
            && var node := q.(shape := q.shape[..n]);
            && node in tries && Within(tries, segments, pre) && Within(tries, segments, [node] + post)
            && r.params == Replay(tries, segments, [node] + post, Replay(tries, segments, pre, params))
            && forall v <- post :: v.verb == node.verb && node.shape < v.shape
  {
    hide Search, Replay, OnWay, Tour, Before, UrlDecode;
    RootOnWay(root.verb, segments);
    assert root == Place(root.verb, []);
    pre, post := FoundSplitsVisit(tries, root, segments, params, n);
    ParamsAreReplay(tries, root, segments, params);
    var r := Search(tries, root, segments, params);
    var node := r.found.value.(shape := r.found.value.shape[..n]);
    Assoc(pre, [node], post);
    assert r.visited[1..] == pre[1..] + ([node] + post);
    pre := pre[1..];
    ReplayConcat(tries, segments, pre, [node] + post, params);
  }

  /** When no name repeats along a path, a successful search binds each parameter of the pattern it
      picks, under the name of its node, to the decoded segment at its own position, whatever failed
      branches were explored first. */
  lemma BindsOwnSegments(tries: Tries, verb: string, segments: seq<string>)
    requires NoRepeat(tries, verb)
    ensures BindsOwn(tries, verb, segments)
  {
    var root := Place(verb, []);
    if root in tries && Search(tries, root, segments, map[]).found.Some? {
      RootOnWay(verb, segments);
      SearchSound(tries, root, segments, map[]);
      var r := Search(tries, root, segments, map[]);
      hide Search, OnWay, Fits, Table, NoRepeat, BoundAt;
      forall i | 0 <= i < |segments|
        ensures BoundAt(tries, r.found.value, segments, r.params, i)
      {
        BindsAt(tries, verb, segments, i);
      }
    }
  }

  lemma BindsAt(tries: Tries, verb: string, segments: seq<string>, i: nat)
    requires NoRepeat(tries, verb) && Place(verb, []) in tries && i < |segments|
    requires Search(tries, Place(verb, []), segments, map[]).found.Some?
    ensures var r := Search(tries, Place(verb, []), segments, map[]);
            r.found.value.verb == verb && BoundAt(tries, r.found.value, segments, r.params, i)
  {
    hide Search, OnWay, Fits, Table, Replay, UrlDecode;
    var root := Place(verb, []);
    RootOnWay(verb, segments);
    SearchSound(tries, root, segments, map[]);
    var q := Search(tries, root, segments, map[]).found.value;
    var pre, post := Entered(tries, root, segments, map[], i + 1);
    if q.shape[i] == Param {
      LastUnderOwnName(tries, verb, segments, q.(shape := q.shape[..i + 1]), post, Replay(tries, segments, pre, map[]));
    }
  }

  /** What is bound on entering a node stays bound, when only nodes below it are entered later. */
  lemma LastUnderOwnName(tries: Tries, verb: string, segments: seq<string>, node: Place, post: seq<Place>,
                         params: map<string, string>)
    requires NoRepeat(tries, verb) && node in tries && node.verb == verb && IsParam(node)
    requires Within(tries, segments, [node] + post) && forall v <- post :: v.verb == verb && node.shape < v.shape
    ensures var after, name := Replay(tries, segments, [node] + post, params), tries[node].name;
            |node.shape| <= |segments| && name in after && after[name] == UrlDecode(segments[|node.shape| - 1])
  {
    hide Replay, UrlDecode;
    assert ([node] + post)[1..] == post;
    EnterAndReplay(tries, segments, node, [node] + post, params);
    var last := LastBindingWins(tries, segments, post,
                                params[tries[node].name := UrlDecode(segments[|node.shape| - 1])], tries[node].name);
  }

  /** The shape a pattern has up to one of its nodes. */
  lemma NodeOf(tries: Tries, p: Place, r: Place)
    requires IsParam(p) && Under(r, p)
    ensures 1 <= |p.shape| <= |r.shape| && r.verb == p.verb
    ensures r.shape[|p.shape| - 1] == Param && r.(shape := r.shape[..|p.shape|]) == p
  {
  }

  /** Every request that can come in is answered with the right parameters. */
  ghost predicate AlwaysBindsOwn(tries: Tries, verb: string) {
    forall segments :: Clean(segments) ==> BindsOwn(tries, verb, segments)
  }

  /** Exactly when routes can rely on their own parameters. For tries built by registering routes, every
      successful request finds the parameters of its pattern bound to its own segments if and only if
      no parameter name occurs twice along a path of the trie. */
  lemma BindsOwnIff(routes: seq<Route>, verb: string)
    requires AllClean(routes)
    ensures AlwaysBindsOwn(Built(routes), verb) <==> NoRepeat(Built(routes), verb)
  {
    hide Built, BindsOwn, Clean, AllClean, Grounded, Texts, IsParam;
    var tries := Built(routes);
    if NoRepeat(tries, verb) {
      forall segments
        ensures BindsOwn(tries, verb, segments)
      {
        BindsOwnSegments(tries, verb, segments);
      }
    } else {
      var p, q :| p in tries && q in tries && p.verb == q.verb == verb && IsParam(p) && IsParam(q)
                  && p.shape < q.shape && tries[p].name == tries[q].name;
      BuiltIsGrounded(routes);
      var n := BuiltTexts(routes);
      var segments := RepeatBreaks(tries, verb, p, q, n);
    }
  }

  lemma RepeatBreaks(tries: Tries, verb: string, p: Place, q: Place, n: nat) returns (segments: seq<string>)
    requires Grounded(tries) && Texts(tries, n) && n >= 1
    requires p in tries && q in tries && p.verb == q.verb == verb && IsParam(p) && IsParam(q)
    requires p.shape < q.shape && tries[p].name == tries[q].name
    ensures Clean(segments) && !BindsOwn(tries, verb, segments)
  {
    var r :| r in Table(tries) && Under(r, q);
    hide *;
    segments := RepeatBreaksAt(tries, p, q, r, n);
  }

  lemma RepeatBreaksAt(tries: Tries, p: Place, q: Place, r: Place, n: nat) returns (segments: seq<string>)
    requires Grounded(tries) && Texts(tries, n) && n >= 1
    requires p in tries && q in tries && p.verb == q.verb && IsParam(p) && IsParam(q)
    requires r in Table(tries) && Under(r, q)
    requires p.shape < q.shape && tries[p].name == tries[q].name
    ensures Clean(segments) && !BindsOwn(tries, p.verb, segments)
  {
    hide *;
    segments := FreshPath(r.shape, n);
    FreshFinds(tries, r, n);
    RegisteredPath(tries, p, q, r);
    FreshDiffers(r.shape, n, |p.shape| - 1, |q.shape| - 1);
    if BindsOwn(tries, p.verb, segments) {
      Unfold(tries, p.verb, segments);
      OneBinding(tries, r, segments, Search(tries, Place(p.verb, []), segments, map[]).params, p, q);
    }
  }

  lemma RegisteredPath(tries: Tries, p: Place, q: Place, r: Place)
    requires IsParam(p) && IsParam(q) && p.verb == q.verb && p.shape < q.shape && r in Table(tries) && Under(r, q)
    ensures r.verb == p.verb && Under(r, p) && 1 <= |p.shape| < |q.shape| <= |r.shape|
    ensures r.shape[|p.shape| - 1] == r.shape[|q.shape| - 1] == Param
  {
    NodeOf(tries, p, r);
    NodeOf(tries, q, r);
  }

  lemma Unfold(tries: Tries, verb: string, segments: seq<string>)
    requires BindsOwn(tries, verb, segments)
    ensures var root := Place(verb, []);
            root in tries && Search(tries, root, segments, map[]).found.Some? ==>
              var r := Search(tries, root, segments, map[]);
              forall i :: 0 <= i < |segments| ==> BoundAt(tries, r.found.value, segments, r.params, i)
  {
    hide Search, BoundAt;
  }

  lemma FreshFinds(tries: Tries, r: Place, n: nat)
    requires Grounded(tries) && Texts(tries, n) && n >= 1 && r in Table(tries)
    ensures Clean(FreshPath(r.shape, n)) && Place(r.verb, []) in tries
    ensures Search(tries, Place(r.verb, []), FreshPath(r.shape, n), map[]).found == Some(r)
  {
    hide Search, Texts, Covers, Before, FreshPath, Clean, PrefixClosed, Drawn;
    OwnShapeIsDrawn(tries, r);
    FreshIsClean(tries, r.shape, n);
    NothingCoversBefore(tries, r);
    PicksCovering(tries, r, r.shape, n);
  }

  /** Two nodes with one name cannot both have their own segment bound. */
  lemma OneBinding(tries: Tries, r: Place, segments: seq<string>, params: map<string, string>, p: Place, q: Place)
    requires IsParam(p) && IsParam(q) && Under(r, p) && Under(r, q) && |segments| == |r.shape|
    requires p in tries && q in tries && tries[p].name == tries[q].name
    requires forall i :: 0 <= i < |segments| ==> BoundAt(tries, r, segments, params, i)
    ensures UrlDecode(segments[|p.shape| - 1]) == UrlDecode(segments[|q.shape| - 1])
  {
    hide UrlDecode;
    NodeOf(tries, p, r);
    NodeOf(tries, q, r);
    assert BoundAt(tries, r, segments, params, |p.shape| - 1);
    assert BoundAt(tries, r, segments, params, |q.shape| - 1);
  }

  lemma FreshDiffers(shape: Shape, n: nat, i: nat, j: nat)
    requires i < j < |shape| && shape[i] == Param && shape[j] == Param
    ensures |FreshPath(shape, n)| == |shape|
    ensures UrlDecode(FreshPath(shape, n)[i]) != UrlDecode(FreshPath(shape, n)[j])
  {
    LettersDecode(n + i);
    LettersDecode(n + j);
    assert |Letters(n + i)| != |Letters(n + j)|;
  }

  lemma NothingCoversBefore(tries: Tries, r: Place)
    ensures Covers(r.shape, r.shape)
    ensures forall f :: Covers(f, r.shape) ==> !Before(f, r.shape)
  {
  }

  // ---- the names left behind ----

  /** A node the search enters before it is done: all nodes that fit the path so far when it fails, and
      else those on the way to the pattern found or before it. */
  ghost predicate Reached(found: Option<Place>, v: Place) {
    found.None? || v.shape <= found.value.shape || Before(v.shape, found.value.shape)
  }

  /** A node on the way below `at` is `at`, or lies below one of its two children. */
  lemma WayDown(tries: Tries, at: Place, segments: seq<string>, v: Place)
    requires PrefixClosed(tries) && v in tries && Under(v, at) && OnWay(v, segments)
    ensures |at.shape| == |segments| ==> v == at
    ensures v != at ==>
              && |at.shape| < |segments| && |at.shape| < |v.shape|
              && var key := v.shape[|at.shape|];
              (key == Static(segments[|at.shape|]) || key == Param) && Down(at, key) in tries && Under(v, Down(at, key))
  {
    if v != at {
      hide PrefixClosed;
      var d := |at.shape|;
      assert |at.shape| < |v.shape| <= |segments|;
      EveryPrefix(tries, v, d + 1);
      assert v.shape[..d + 1] == at.shape + [v.shape[d]];
      assert FitsKey(v.shape[d], segments[..|v.shape|][d]);
    }
  }

  /** What lies below the parameter child is not reached when the other child holds the pattern found. */
  lemma BeyondFound(at: Place, text: string, q: Place, v: Place)
    requires Under(q, Down(at, Static(text))) && Under(v, Down(at, Param))
    ensures !Reached(Some(q), v)
  {
    var d := |at.shape|;
    assert q.shape[d] == Static(text) && v.shape[d] == Param;
    assert q.shape[..d + 1][..d] == q.shape[..d] == at.shape == v.shape[..d];
    forall e | 0 <= e < |v.shape| && e < |q.shape| && v.shape[..e] == q.shape[..e] && v.shape[e] != q.shape[e]
      ensures e == d
    {
    }
  }

  lemma ChildKey(at: Place, key: Key, v: Place)
    ensures Under(v, Down(at, key)) ==> |at.shape| < |v.shape| && v.shape[|at.shape|] == key
  {
    assert Down(at, key).shape[|at.shape|] == key;
  }

  /** Where a search from one child goes. */
  lemma VisitsBelow(tries: Tries, at: Place, key: Key, segments: seq<string>, params: map<string, string>)
    requires Down(at, key) in tries && OnWay(Down(at, key), segments)
    ensures var r := Search(tries, Down(at, key), segments, params);
            && (forall v <- r.visited :: Under(v, Down(at, key)))
            && (r.found.Some? ==> Under(r.found.value, Down(at, key)))
  {
    VisitsOnce(tries, Down(at, key), segments, params);
    SearchSound(tries, Down(at, key), segments, params);
    hide Search;
  }

  /** Which nodes a search enters, without the search. */
  lemma {:induction false} VisitedIff(tries: Tries, at: Place, segments: seq<string>,
                                      params: map<string, string>, v: Place)
    requires PrefixClosed(tries) && at in tries && OnWay(at, segments)
    requires v in tries && Under(v, at) && OnWay(v, segments)
    ensures var r := Search(tries, at, segments, params);
            v in r.visited <==> Reached(r.found, v)
    decreases |segments| - |at.shape|
  {
    hide PrefixClosed, Table, OnWay, Reached, Under;
    if v == at {
      AtIsReached(tries, at, segments, params);
    } else {
      WayDown(tries, at, segments, v);
      OnWayDown(at, segments);
      var seg := segments[|at.shape|];
      var s, p := Down(at, Static(seg)), Down(at, Param);
      var first := if s in tries then Search(tries, s, segments, params) else Outcome(None, params, []);
      if s in tries { VisitsBelow(tries, at, Static(seg), segments, params); }
      if v.shape[|at.shape|] == Param {
        ChildKey(at, Static(seg), v);
        if first.found.Some? {
          BeyondFound(at, seg, first.found.value, v);
        } else {
          VisitedIff(tries, p, segments, first.params[tries[p].name := UrlDecode(seg)], v);
        }
      } else {
        ChildKey(at, Param, v);
        VisitedIff(tries, s, segments, params, v);
        if first.found.None? && p in tries {
          var bound := first.params[tries[p].name := UrlDecode(seg)];
          VisitsBelow(tries, at, Param, segments, bound);
          AlwaysReached(at, seg, Search(tries, p, segments, bound).found, v);
        }
        NoneReached(v);
      }
    }
  }

  lemma NoneReached(v: Place)
    ensures Reached(None, v)
  {
  }

  lemma AlwaysReached(at: Place, text: string, found: Option<Place>, v: Place)
    requires Under(v, Down(at, Static(text))) && (found.Some? ==> Under(found.value, Down(at, Param)))
    ensures Reached(found, v)
  {
    if found.Some? { StaticBeforeParam(at, text, v, found.value); }
  }

  lemma AtIsReached(tries: Tries, at: Place, segments: seq<string>, params: map<string, string>)
    requires at in tries && OnWay(at, segments)
    ensures var r := Search(tries, at, segments, params); at in r.visited && Reached(r.found, at)
  {
    ParamsAreReplay(tries, at, segments, params);
    SearchSound(tries, at, segments, params);
    hide Search;
  }

  /** Node v leaves its name behind in a search that ends with `found`. */
  ghost predicate Leaves(tries: Tries, verb: string, segments: seq<string>, found: Option<Place>, v: Place,
                         name: string) {
    v in tries && v.verb == verb && IsParam(v) && tries[v].name == name && OnWay(v, segments) && Reached(found, v)
  }

  /** Which names a search leaves behind, without the search: those of all parameter nodes that fit the
      path so far and are on the way to the pattern found or before it. */
  lemma NamesLeftIff(tries: Tries, verb: string, segments: seq<string>, name: string)
    requires PrefixClosed(tries) && Place(verb, []) in tries
    ensures var r := Search(tries, Place(verb, []), segments, map[]);
            name in r.params <==> exists v :: Leaves(tries, verb, segments, r.found, v, name)
  {
    hide Search, PrefixClosed, Reached, OnWay, Replay, Tour, Fits;
    var root := Place(verb, []);
    var r := Search(tries, root, segments, map[]);
    RootOnWay(verb, segments);
    ParamsAreReplay(tries, root, segments, map[]);
    VisitsOnce(tries, root, segments, map[]);
    TourFacts(tries, root, segments, r.visited);
    assert r.visited == [root] + r.visited[1..];
    forall v | v in tries && v.verb == verb && OnWay(v, segments)
      ensures v in r.visited <==> Reached(r.found, v)
    {
      VisitedIff(tries, root, segments, map[], v);
    }
    var last := LastBindingWins(tries, segments, r.visited[1..], map[], name);
    if last.Some? { assert Leaves(tries, verb, segments, r.found, last.value, name); }
  }

  lemma TourFacts(tries: Tries, at: Place, segments: seq<string>, visited: seq<Place>)
    requires Tour(tries, at, segments, visited)
    ensures forall v <- visited :: v in tries && v.verb == at.verb && OnWay(v, segments)
  {
  }

  // ---- routes that show the limits ----

  /** One step of registration. */
  ghost function Ensured(tries: Tries, p: Place, name: string): Tries {
    if p in tries then tries else tries[p := Node(name, None)]
  }

  lemma GrownOne(tries: Tries, a: string)
    ensures Grown(tries, "GET", [a])
            == Ensured(Ensured(tries, Place("GET", []), ""), Place("GET", [KeyOf(a)]), NameOf(a))
  {
    assert [a][..0] == [] && ShapeOf([]) == [] && ShapeOf([a]) == [KeyOf(a)];
    assert Grown(tries, "GET", []) == Ensured(tries, Place("GET", []), "");
  }

  lemma GrownTwo(tries: Tries, a: string, b: string)
    ensures Grown(tries, "GET", [a, b])
            == Ensured(Grown(tries, "GET", [a]), Place("GET", [KeyOf(a), KeyOf(b)]), NameOf(b))
  {
    assert [a, b][..1] == [a] && ShapeOf([a, b]) == [KeyOf(a), KeyOf(b)];
    hide KeyOf, NameOf;
  }

  lemma GrownThree(tries: Tries, a: string, b: string, c: string)
    ensures Grown(tries, "GET", [a, b, c])
            == Ensured(Grown(tries, "GET", [a, b]), Place("GET", [KeyOf(a), KeyOf(b), KeyOf(c)]), NameOf(c))
  {
    assert [a, b, c][..2] == [a, b] && ShapeOf([a, b, c]) == [KeyOf(a), KeyOf(b), KeyOf(c)];
    hide KeyOf, NameOf;
  }

  lemma BuiltOf(a: Route, b: Route)
    ensures Built([a]) == AddRoute(map[], a.verb, a.segments, Some(a.handler))
    ensures Built([a, b]) == AddRoute(Built([a]), b.verb, b.segments, Some(b.handler))
  {
    hide AddRoute;
    assert [a][..0] == [] && [a, b][..1] == [a];
  }

  /** The tries of a single two-segment pattern. */
  lemma TwoSegments(a: string, b: string, h: HandlerId)
    ensures AddRoute(map[], "GET", [a, b], Some(h))
            == map[Place("GET", []) := Node("", None),
                   Place("GET", [KeyOf(a)]) := Node(NameOf(a), None),
                   Place("GET", [KeyOf(a), KeyOf(b)]) := Node(NameOf(b), Some(h))]
  {
    assert [a, b][..1] == [a] && [a][..0] == [];
    assert ShapeOf([]) == [] && ShapeOf([a]) == [KeyOf(a)] && ShapeOf([a, b]) == [KeyOf(a), KeyOf(b)];
    assert Grown(map[], "GET", []) == map[Place("GET", []) := Node("", None)];
    assert Grown(map[], "GET", [a]) == Grown(map[], "GET", [])[Place("GET", [KeyOf(a)]) := Node(NameOf(a), None)];
  }

  lemma PlainDecode(digit: string)
    requires |digit| == 1 && digit[0] != '+' && digit[0] != '%'
    ensures UrlDecode(digit) == digit
  {
    DecodeIsIdentityIff(digit);
  }

  lemma SameNameTries(tries: Tries)
    requires tries == map[Place("GET", []) := Node("", None),
                          Place("GET", [Param]) := Node("id", None),
                          Place("GET", [Param, Param]) := Node("id", Some(1))]
    ensures tries == Built([Route("GET", [":id", ":id"], 1)]) && !NoRepeat(tries, "GET")
  {
    hide AddRoute, Grown, Built;
    BuiltOf(Route("GET", [":id", ":id"], 1), Route("GET", [":id", ":id"], 1));
    TwoSegments(":id", ":id", 1);
    assert IsParam(Place("GET", [Param])) && IsParam(Place("GET", [Param, Param]));
  }

  /** Without that condition a binding can be wrong. One pattern that uses a name twice is enough:
      the route GET /:id/:id answers /1/2 with id bound to the second segment only. */
  lemma SameNameTwice(tries: Tries, segments: seq<string>)
    requires tries == map[Place("GET", []) := Node("", None),
                          Place("GET", [Param]) := Node("id", None),
                          Place("GET", [Param, Param]) := Node("id", Some(1))]
    requires segments == ["1", "2"]
    ensures tries == Built([Route("GET", [":id", ":id"], 1)]) && !NoRepeat(tries, "GET")
    ensures var r := Search(tries, Place("GET", []), segments, map[]);
            r.found == Some(Place("GET", [Param, Param])) && r.params == map["id" := "2"]
  {
    hide Built, NoRepeat, Search, UrlDecode;
    SameNameTries(tries);
    PlainDecode("1");
    PlainDecode("2");
    var root, a, b := Place("GET", []), Place("GET", [Param]), Place("GET", [Param, Param]);
    assert Down(root, Param) == a && Down(a, Param) == b;
    assert Down(root, Static("1")).shape[0] == Static("1") && Down(a, Static("2")).shape[1] == Static("2");
    assert map["id" := "1"]["id" := "2"] == map["id" := "2"];
    SearchStep(tries, root, segments, map[]);
    SearchStep(tries, a, segments, map["id" := "1"]);
    SearchEnd(tries, b, segments, map["id" := "2"]);
  }

  lemma ForkTries(tries: Tries)
    requires tries == map[Place("GET", []) := Node("", None),
                          Place("GET", [Static("a")]) := Node("a", None),
                          Place("GET", [Static("a"), Param]) := Node("x", None),
                          Place("GET", [Static("a"), Param, Static("b")]) := Node("b", Some(1)),
                          Place("GET", [Param]) := Node("y", None),
                          Place("GET", [Param, Param]) := Node("z", Some(2))]
    ensures tries == AddRoute(AddRoute(map[], "GET", ["a", ":x", "b"], Some(1)), "GET", [":y", ":z"], Some(2))
  {
    hide Grown;
    GrownOne(map[], "a");
    GrownTwo(map[], "a", ":x");
    GrownThree(map[], "a", ":x", "b");
    assert ShapeOf(["a", ":x", "b"]) == [Static("a"), Param, Static("b")];
    assert ShapeOf([":y", ":z"]) == [Param, Param];
    var first := AddRoute(map[], "GET", ["a", ":x", "b"], Some(1));
    GrownOne(first, ":y");
    GrownTwo(first, ":y", ":z");
  }

  /** A failed branch leaves its names behind. With the patterns /a/:x/b and /:y/:z registered,
      the path /a/5 reaches the second one with the first one's name bound as well. */
  lemma FailedBranchLeavesName(tries: Tries, segments: seq<string>)
    requires tries == map[Place("GET", []) := Node("", None),
                          Place("GET", [Static("a")]) := Node("a", None),
                          Place("GET", [Static("a"), Param]) := Node("x", None),
                          Place("GET", [Static("a"), Param, Static("b")]) := Node("b", Some(1)),
                          Place("GET", [Param]) := Node("y", None),
                          Place("GET", [Param, Param]) := Node("z", Some(2))]
    requires segments == ["a", "5"]
    ensures tries == Built([Route("GET", ["a", ":x", "b"], 1), Route("GET", [":y", ":z"], 2)])
    ensures var r := Search(tries, Place("GET", []), segments, map[]);
            r.found == Some(Place("GET", [Param, Param])) && r.params == map["x" := "5", "y" := "a", "z" := "5"]
  {
    hide Built, AddRoute, Search, UrlDecode;
    BuiltOf(Route("GET", ["a", ":x", "b"], 1), Route("GET", [":y", ":z"], 2));
    ForkTries(tries);
    PlainDecode("a");
    PlainDecode("5");
    var root, a, x := Place("GET", []), Place("GET", [Static("a")]), Place("GET", [Static("a"), Param]);
    var y, z := Place("GET", [Param]), Place("GET", [Param, Param]);
    assert Down(root, Static("a")) == a && Down(root, Param) == y && Down(a, Param) == x && Down(y, Param) == z;
    assert Down(a, Static("5")).shape[1] == Static("5") && Down(y, Static("5")).shape[1] == Static("5");
    SearchStep(tries, root, segments, map[]);
    SearchStep(tries, a, segments, map[]);
    SearchEnd(tries, x, segments, map["x" := "5"]);
    var bound := map["x" := "5", "y" := "a"];
    SearchStep(tries, y, segments, bound);
    SearchEnd(tries, z, segments, bound["z" := "5"]);
  }

  /** The routes GET /u/:id and GET /:id use one name at two depths, and can rely on it. */
  lemma TwoDepthsAreFine(tries: Tries)
    requires tries == map[Place("GET", []) := Node("", None),
                          Place("GET", [Static("u")]) := Node("u", None),
                          Place("GET", [Static("u"), Param]) := Node("id", Some(1)),
                          Place("GET", [Param]) := Node("id", Some(2))]
    ensures tries == Built([Route("GET", ["u", ":id"], 1), Route("GET", [":id"], 2)])
    ensures NoRepeat(tries, "GET")
  {
    hide Grown, Built;
    BuiltOf(Route("GET", ["u", ":id"], 1), Route("GET", [":id"], 2));
    TwoSegments("u", ":id", 1);
    var first := AddRoute(map[], "GET", ["u", ":id"], Some(1));
    GrownOne(first, ":id");
    assert ShapeOf([":id"]) == [Param];
  }

  lemma SharedTries(tries: Tries)
    requires tries == map[Place("GET", []) := Node("", None),
                          Place("GET", [Param]) := Node("a", None),
                          Place("GET", [Param, Static("x")]) := Node("x", Some(1)),
                          Place("GET", [Param, Static("y")]) := Node("y", Some(2))]
    ensures tries == Built([Route("GET", [":a", "x"], 1), Route("GET", [":b", "y"], 2)])
  {
    hide Grown, Built;
    BuiltOf(Route("GET", [":a", "x"], 1), Route("GET", [":b", "y"], 2));
    TwoSegments(":a", "x", 1);
    var before := AddRoute(map[], "GET", [":a", "x"], Some(1));
    GrownOne(before, ":b");
    GrownTwo(before, ":b", "y");
    assert ShapeOf([":b", "y"]) == [Param, Static("y")];
  }

  /** Two routes that share a parameter's place share the name of the first: GET /:a/x and GET /:b/y
      answer /1/y with a bound, and b not. */
  lemma FirstNameWins(tries: Tries, segments: seq<string>)
    requires tries == map[Place("GET", []) := Node("", None),
                          Place("GET", [Param]) := Node("a", None),
                          Place("GET", [Param, Static("x")]) := Node("x", Some(1)),
                          Place("GET", [Param, Static("y")]) := Node("y", Some(2))]
    requires segments == ["1", "y"]
    ensures tries == Built([Route("GET", [":a", "x"], 1), Route("GET", [":b", "y"], 2)])
    ensures var r := Search(tries, Place("GET", []), segments, map[]);
            r.found == Some(Place("GET", [Param, Static("y")])) && r.params == map["a" := "1"]
  {
    hide Built, Search, UrlDecode;
    SharedTries(tries);
    PlainDecode("1");
    var root, a, y := Place("GET", []), Place("GET", [Param]), Place("GET", [Param, Static("y")]);
    assert Down(root, Param) == a && Down(a, Static("y")) == y;
    assert Down(root, Static("1")).shape[0] == Static("1");
    SearchStep(tries, root, segments, map[]);
    SearchStep(tries, a, segments, map["a" := "1"]);
    SearchEnd(tries, y, segments, map["a" := "1"]);
  }
}
