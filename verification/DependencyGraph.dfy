/** The worklist that turns a resolved dependency graph into the release closure. */
module DependencyGraph {
  import opened Ordering
  import opened Results
  import opened Text

  // kinds: the "kind" of each dep_kinds row, None when it is null or missing.
  datatype Dependency = Dependency(pkg: string, kinds: seq<Option<string>>)

  // deps is None when the metadata value is not a list.
  datatype Node = Node(id: string, deps: Option<seq<Dependency>>, features: seq<string>)

  datatype Edge = Edge(parent: string, child: string, role: string)

  datatype Closure = Closure(seen: set<string>, roles: map<string, set<string>>, edges: seq<Edge>)

  datatype GraphError = GraphAbsent | RootAbsent | InvalidDependencies(id: string) | NodeAbsent(id: string)

  type Graph = map<string, Node>

  // {node["id"]: node for node in nodes}: a later row replaces an earlier one.
  function Index(nodes: seq<Node>): Graph {
    if nodes == [] then map[]
    else
      var last := nodes[|nodes| - 1];
      Index(nodes[..|nodes| - 1])[last.id := last]
  }

  function RoleOf(kind: Option<string>): string {
    if kind == None || kind == Some("") then "normal" else kind.value
  }

  // A row selects "build" by that kind, and "normal" by that kind, an empty one or none.
  ghost predicate Selects(d: Dependency, role: string) {
    || (role == "build" && Some("build") in d.kinds)
    || (role == "normal" && (Some("normal") in d.kinds || Some("") in d.kinds || None in d.kinds))
  }

  function SelectedRoles(d: Dependency): (roles: set<string>)
    ensures forall role :: role in roles <==> Selects(d, role)
  {
    set k | k in d.kinds && RoleOf(k) in {"normal", "build"} :: RoleOf(k)
  }

  function EdgeKey(e: Edge): seq<string> {
    [e.parent, e.child, e.role]
  }

  predicate EdgeBefore(a: Edge, b: Edge) {
    ListBefore(EdgeKey(a), EdgeKey(b))
  }

  lemma {:induction false} EdgeBeforeStrictTotal()
    ensures StrictTotal(EdgeBefore)
  {
    ListBeforeStrictTotal();
    forall x, y ensures x == y || EdgeBefore(x, y) || EdgeBefore(y, x) {
      if EdgeKey(x) == EdgeKey(y) {
        assert EdgeKey(x)[0] == x.parent && EdgeKey(x)[1] == x.child && EdgeKey(x)[2] == x.role;
      }
    }
  }

  // ----- what the closure should be -----

  ghost predicate Lists(deps: seq<Dependency>, child: string, role: string) {
    exists i :: 0 <= i < |deps| && deps[i].pkg == child && Selects(deps[i], role)
  }

  // A selected edge of the graph: some dependency row of the parent names the child with that role.
  ghost predicate IsEdge(g: Graph, e: Edge) {
    e.parent in g && g[e.parent].deps.Some? && Lists(g[e.parent].deps.value, e.child, e.role)
  }

  ghost predicate Links(g: Graph, parent: string, child: string) {
    exists role :: IsEdge(g, Edge(parent, child, role))
  }

  ghost predicate IsPath(g: Graph, path: seq<string>) {
    forall i :: 0 <= i < |path| - 1 ==> Links(g, path[i], path[i + 1])
  }

  ghost predicate PathTo(g: Graph, root: string, n: string, path: seq<string>) {
    path != [] && path[0] == root && path[|path| - 1] == n && IsPath(g, path)
  }

  ghost predicate Reachable(g: Graph, root: string, n: string) {
    exists path :: PathTo(g, root, n, path)
  }

  // Every dependency row, selected or not, must name a node of the graph.
  ghost predicate Sound(g: Graph, n: string) {
    n in g && g[n].deps.Some? && forall d :: d in g[n].deps.value ==> d.pkg in g
  }

  ghost predicate HasRole(g: Graph, root: string, n: string, role: string) {
    || (n == root && role == "root")
    || exists parent :: Reachable(g, root, parent) && IsEdge(g, Edge(parent, n, role))
  }

  // Exactly the selected edges leaving reachable nodes, ascending and without repeats.
  ghost predicate EdgesCorrect(g: Graph, root: string, edges: seq<Edge>) {
    && Increasing(EdgeBefore, edges)
    && forall e :: e in edges <==> IsEdge(g, e) && Reachable(g, root, e.parent)
  }

  // Every node's incoming reachable roles, plus "root" at the root.
  ghost predicate RolesCorrect(g: Graph, root: string, roles: map<string, set<string>>) {
    forall n :: n in roles ==> forall role :: role in roles[n] <==> HasRole(g, root, n, role)
  }

  ghost predicate IsClosure(g: Graph, root: string, c: Closure) {
    && (forall n :: n in c.seen <==> Reachable(g, root, n))
    && EdgesCorrect(g, root, c.edges)
    && c.roles.Keys == c.seen && RolesCorrect(g, root, c.roles)
  }

  // Every kind of a row of a seen parent that asks for an edge has it, to a seen node.
  ghost predicate RowsFollowed(g: Graph, c: Closure) {
    forall parent, d :: parent in c.seen && parent in g && g[parent].deps.Some? && d in g[parent].deps.value ==>
      && (Some("build") in d.kinds ==> d.pkg in c.seen && Edge(parent, d.pkg, "build") in c.edges)
      && (Some("normal") in d.kinds || Some("") in d.kinds || None in d.kinds ==>
            d.pkg in c.seen && Edge(parent, d.pkg, "normal") in c.edges)
  }

  // Every edge has a row of its parent that asks for it.
  ghost predicate EdgesBacked(g: Graph, c: Closure) {
    forall e :: e in c.edges ==>
      && e.parent in c.seen && e.child in c.seen && e.parent in g && g[e.parent].deps.Some?
      && exists d :: d in g[e.parent].deps.value && d.pkg == e.child
           && (if e.role == "build" then Some("build") in d.kinds
               else e.role == "normal" && (Some("normal") in d.kinds || Some("") in d.kinds || None in d.kinds))
  }

  // By parent, then child, then role, without repeats.
  ghost predicate EdgesAscend(edges: seq<Edge>) {
    forall i, j :: 0 <= i < j < |edges| ==>
      || Before(edges[i].parent, edges[j].parent)
      || (edges[i].parent == edges[j].parent && Before(edges[i].child, edges[j].child))
      || (edges[i].parent == edges[j].parent && edges[i].child == edges[j].child
          && Before(edges[i].role, edges[j].role))
  }

  // The node of an id is the last one listed under it.
  lemma {:induction false} IndexLast(nodes: seq<Node>, i: nat)
    requires i < |nodes| && forall j :: i < j < |nodes| ==> nodes[j].id != nodes[i].id
    ensures nodes[i].id in Index(nodes) && Index(nodes)[nodes[i].id] == nodes[i]
    decreases |nodes|
  {
    var n := |nodes| - 1;
    if i < n {
      assert nodes[n].id != nodes[i].id;
      IndexLast(nodes[..n], i);
    }
  }

  // And an id without a node is none.
  lemma {:induction false} IndexListed(nodes: seq<Node>, id: string)
    requires id in Index(nodes)
    ensures exists i :: 0 <= i < |nodes| && nodes[i].id == id
    decreases |nodes|
  {
    var n := |nodes| - 1;
    if nodes[n].id != id {
      IndexListed(nodes[..n], id);
      var i :| 0 <= i < n && nodes[..n][i].id == id;
      assert nodes[i].id == id;
    }
  }

  // ----- the algorithm -----

  ghost function Children(es: set<Edge>): set<string> {
    set e | e in es :: e.child
  }

  ghost function IncomingRoles(es: set<Edge>, root: string, n: string): set<string> {
    (set e | e in es && e.child == n :: e.role) + if n == root then {"root"} else {}
  }

  // The bookkeeping of `seen` and `roles`, both functions of the edges found so far.
  ghost predicate Booked(root: string, edges: seq<Edge>, seen: set<string>, roles: map<string, set<string>>) {
    && seen == {root} + Children(Elements(edges))
    && RolesBooked(root, edges, roles)
  }

  ghost predicate RolesBooked(root: string, edges: seq<Edge>, roles: map<string, set<string>>) {
    && roles.Keys == {root} + Children(Elements(edges))
    && forall n :: n in roles ==> roles[n] == IncomingRoles(Elements(edges), root, n)
  }

  ghost predicate Explored(g: Graph, n: string, edges: seq<Edge>) {
    Sound(g, n) && forall e: Edge :: e.parent == n && IsEdge(g, e) ==> e in edges
  }

  // Only selected edges leaving reachable nodes have been recorded.
  ghost predicate Justified(g: Graph, root: string, edges: seq<Edge>) {
    forall e :: e in edges ==> IsEdge(g, e) && Reachable(g, root, e.parent)
  }

  ghost predicate Invariant(g: Graph, root: string, seen: set<string>, roles: map<string, set<string>>,
                            edges: seq<Edge>, pending: seq<string>) {
    && seen <= g.Keys
    && Booked(root, edges, seen, roles)
    && Justified(g, root, edges)
    && NoRepeats(pending) && Elements(pending) <= seen
  }

  // Records one dependency under each of its selected roles, in sorted order.
  method AddEdges(parent: string, d: Dependency, edges0: seq<Edge>, roles0: map<string, set<string>>,
                  ghost root: string)
    returns (edges: seq<Edge>, roles: map<string, set<string>>)
    requires RolesBooked(root, edges0, roles0)
    ensures RolesBooked(root, edges, roles)
    ensures RowAdded(parent, d, edges0, edges)
  {
    BeforeStrictTotal();
    hide RolesBooked, SelectedRoles, SortSet, Increasing, StrictTotal, Before;
    var child := d.pkg;
    var ordered := SortSet(Before, SelectedRoles(d));
    edges, roles := edges0, roles0;
    for j := 0 to |ordered|
      invariant RolesBooked(root, edges, roles)
      invariant forall e :: e in edges <==>
                  e in edges0 || (e.parent == parent && e.child == child && e.role in ordered[..j])
    {
      var e := Edge(parent, child, ordered[j]);
      AddRole(root, edges, roles, e);
      assert forall x :: x in edges + [e] <==> x in edges || x == e;
      assert forall role :: role in ordered[..j + 1] <==> role in ordered[..j] || role == ordered[j];
      edges := edges + [e];
      roles := roles[child := (if child in roles then roles[child] else {}) + {ordered[j]}];
    }
    assert ordered[..|ordered|] == ordered;
  }

  ghost predicate Scanned(parent: string, deps: seq<Dependency>, g: Graph, edges: seq<Edge>) {
    forall d :: d in deps ==>
      d.pkg in g && forall role :: role in SelectedRoles(d) ==> Edge(parent, d.pkg, role) in edges
  }

  // Everything seen is explored, waiting, or being scanned right now.
  ghost predicate ExploredBut(g: Graph, seen: set<string>, pending: seq<string>, except: set<string>,
                              edges: seq<Edge>) {
    forall n :: n in seen && n !in pending && n !in except ==> Explored(g, n, edges)
  }

  // The body of the worklist loop: every dependency row of one node.
  method ScanNode(g: Graph, ghost root: string, parent: string, seen0: set<string>, roles0: map<string, set<string>>,
                  edges0: seq<Edge>, pending0: seq<string>)
    returns (failure: Option<GraphError>, seen: set<string>, roles: map<string, set<string>>, edges: seq<Edge>,
             pending: seq<string>)
    requires Invariant(g, root, seen0, roles0, edges0, pending0) && ExploredBut(g, seen0, pending0, {parent}, edges0)
    requires parent in g && parent in seen0 && parent !in pending0 && Reachable(g, root, parent)
    ensures failure.Some? ==> !Sound(g, parent)
    ensures failure.None? ==>
            Invariant(g, root, seen, roles, edges, pending) && ExploredBut(g, seen, pending, {}, edges)
    ensures |g.Keys - seen| + |pending| <= |g.Keys - seen0| + |pending0|
  {
    hide *;
    failure, seen, roles, edges, pending := None, seen0, roles0, edges0, pending0;
    if g[parent].deps.None? {
      Unsound(g, parent, 0);
      return Some(InvalidDependencies(parent)), seen, roles, edges, pending;
    }
    var deps := g[parent].deps.value;
    NothingScanned(g, parent, edges);
    for i := 0 to |deps|
      invariant Invariant(g, root, seen, roles, edges, pending) && ExploredBut(g, seen, pending, {parent}, edges)
      invariant parent in seen && parent !in pending && Scanned(parent, deps[..i], g, edges)
      invariant |g.Keys - seen| + |pending| <= |g.Keys - seen0| + |pending0|
    {
      var child := deps[i].pkg;
      if child !in g {
        Unsound(g, parent, i);
        return Some(NodeAbsent(child)), seen, roles, edges, pending;
      }
      var selected := SelectedRoles(deps[i]);
      ghost var before := (edges, roles);
      InvariantRoles(g, root, seen, roles, edges, pending);
      edges, roles := AddEdges(parent, deps[i], edges, roles, root);
      ScanJustified(g, root, parent, i, before.0, edges);
      if selected != {} && child !in seen {
        ScanNew(g, root, parent, i, seen, before.1, before.0, pending, edges, roles);
        seen := seen + {child};
        pending := pending + [child];
      } else {
        ScanKnown(g, root, parent, i, seen, before.1, before.0, pending, edges, roles);
      }
    }
    assert deps[..|deps|] == deps;
    ScannedExplored(g, parent, seen, pending, edges);
  }

  method DependencyClosure(resolve: Option<seq<Node>>, rootId: string) returns (r: Result<Closure, GraphError>)
    ensures r.Ok? <==> resolve.Some? && rootId in Index(resolve.value) &&
                       forall n :: Reachable(Index(resolve.value), rootId, n) ==> Sound(Index(resolve.value), n)
    ensures r.Ok? ==> IsClosure(Index(resolve.value), rootId, r.value)
    ensures r.Ok? ==>
              && RowsFollowed(Index(resolve.value), r.value) && EdgesBacked(Index(resolve.value), r.value)
              && EdgesAscend(r.value.edges)
  {
    if resolve.None? {
      return Err(GraphAbsent);
    }
    var g := Index(resolve.value);
    RootReachable(g, rootId);
    if rootId !in g {
      assert !Sound(g, rootId);
      return Err(RootAbsent);
    }
    EdgeBeforeStrictTotal();
    hide *;
    var seen, roles := {rootId}, map[rootId := {"root"}];
    var edges: seq<Edge> := [];
    var pending := [rootId];
    Start(g, rootId);
    while pending != []
      invariant Invariant(g, rootId, seen, roles, edges, pending) && ExploredBut(g, seen, pending, {}, edges)
      decreases |g.Keys - seen| + |pending|
    {
      var parent := pending[|pending| - 1];
      Pop(g, rootId, seen, roles, edges, pending);
      pending := pending[..|pending| - 1];
      var failure;
      failure, seen, roles, edges, pending := ScanNode(g, rootId, parent, seen, roles, edges, pending);
      if failure.Some? {
        return Err(failure.value);
      }
    }
    ClosureReached(g, rootId, edges, seen, roles);
    r := Ok(Closure(seen, roles, SortSet(EdgeBefore, Elements(edges))));
    ClosureFollowsRows(g, rootId, r.value);
  }

  lemma {:induction false} RowFollowed(g: Graph, root: string, c: Closure, parent: string, d: Dependency, role: string)
    requires IsClosure(g, root, c) && parent in c.seen && parent in g && g[parent].deps.Some?
    requires d in g[parent].deps.value && Selects(d, role)
    ensures d.pkg in c.seen && Edge(parent, d.pkg, role) in c.edges
  {
    hide Selects, Reachable, RolesCorrect, Increasing;
    var deps := g[parent].deps.value;
    var i :| 0 <= i < |deps| && deps[i] == d;
    assert IsEdge(g, Edge(parent, d.pkg, role));
    ReachStep(g, root, Edge(parent, d.pkg, role));
  }

  lemma {:induction false} EdgeFollows(g: Graph, root: string, c: Closure, e: Edge)
    requires IsClosure(g, root, c) && e in c.edges
    ensures e.parent in c.seen && e.child in c.seen && e.parent in g && g[e.parent].deps.Some?
    ensures exists d :: d in g[e.parent].deps.value && d.pkg == e.child && Selects(d, e.role)
  {
    hide Selects, Reachable, RolesCorrect, Increasing;
    ReachStep(g, root, e);
    var deps := g[e.parent].deps.value;
    var i :| 0 <= i < |deps| && deps[i].pkg == e.child && Selects(deps[i], e.role);
    assert deps[i] in deps;
  }

  lemma {:induction false} EdgesOrdered(edges: seq<Edge>)
    requires Increasing(EdgeBefore, edges)
    ensures EdgesAscend(edges)
  {
    forall i, j | 0 <= i < j < |edges|
      ensures
        || Before(edges[i].parent, edges[j].parent)
        || (edges[i].parent == edges[j].parent && Before(edges[i].child, edges[j].child))
        || (edges[i].parent == edges[j].parent && edges[i].child == edges[j].child
            && Before(edges[i].role, edges[j].role))
    {
      assert EdgeBefore(edges[i], edges[j]);
      ThreeBefore(EdgeKey(edges[i]), EdgeKey(edges[j]));
    }
  }

  lemma {:induction false} ThreeBefore(a: seq<string>, b: seq<string>)
    requires |a| == |b| == 3
    ensures ListBefore(a, b) <==>
            Before(a[0], b[0]) || (a[0] == b[0] && (Before(a[1], b[1]) || (a[1] == b[1] && Before(a[2], b[2]))))
  {
    assert a[1..][1..] == a[2..] && b[1..][1..] == b[2..] && a[2..][1..] == [] && b[2..][1..] == [];
    hide Before;
  }

  lemma {:induction false} ClosureFollowsRows(g: Graph, root: string, c: Closure)
    requires IsClosure(g, root, c)
    ensures RowsFollowed(g, c) && EdgesBacked(g, c) && EdgesAscend(c.edges)
  {
    hide IsEdge, Reachable, IsClosure, EdgeBefore, Before, Increasing, EdgesAscend;
    forall parent, d, role | parent in c.seen && parent in g && g[parent].deps.Some? && d in g[parent].deps.value
                             && Selects(d, role)
      ensures d.pkg in c.seen && Edge(parent, d.pkg, role) in c.edges
    {
      RowFollowed(g, root, c, parent, d, role);
    }
    assert RowsFollowed(g, c) by {
      forall parent, d | parent in c.seen && parent in g && g[parent].deps.Some? && d in g[parent].deps.value
        ensures Selects(d, "build") <==> Some("build") in d.kinds
        ensures Selects(d, "normal") <==> Some("normal") in d.kinds || Some("") in d.kinds || None in d.kinds
      {
      }
    }
    forall e | e in c.edges
      ensures e.parent in c.seen && e.child in c.seen && e.parent in g && g[e.parent].deps.Some?
      ensures exists d :: d in g[e.parent].deps.value && d.pkg == e.child && Selects(d, e.role)
    {
      EdgeFollows(g, root, c, e);
    }
    EdgesSorted(g, root, c);
    EdgesOrdered(c.edges);
  }

  lemma {:induction false} EdgesSorted(g: Graph, root: string, c: Closure)
    requires IsClosure(g, root, c)
    ensures Increasing(EdgeBefore, c.edges)
  {
  }

  // ----- proofs -----

  lemma {:induction false} RootReachable(g: Graph, root: string)
    ensures Reachable(g, root, root)
  {
    assert PathTo(g, root, root, [root]);
  }

  lemma {:induction false} ReachStep(g: Graph, root: string, e: Edge)
    requires Reachable(g, root, e.parent) && IsEdge(g, e)
    ensures Reachable(g, root, e.child)
  {
    var path :| PathTo(g, root, e.parent, path);
    assert Links(g, e.parent, e.child);
    assert PathTo(g, root, e.child, path + [e.child]);
  }

  lemma {:induction false} ReachableWhenSeen(g: Graph, root: string, edges: seq<Edge>, seen: set<string>,
                                             roles: map<string, set<string>>, n: string)
    requires Booked(root, edges, seen, roles) && Justified(g, root, edges) && n in seen
    ensures Reachable(g, root, n)
  {
    if n == root {
      RootReachable(g, root);
    } else {
      var e :| e in edges && e.child == n;
      ReachStep(g, root, e);
    }
  }

  lemma {:induction false} Start(g: Graph, root: string)
    requires root in g
    ensures Invariant(g, root, {root}, map[root := {"root"}], [], [root])
    ensures ExploredBut(g, {root}, [root], {}, [])
  {
  }

  lemma {:induction false} Unsound(g: Graph, n: string, i: nat)
    requires n in g
    requires g[n].deps.Some? ==> i < |g[n].deps.value| && g[n].deps.value[i].pkg !in g
    ensures !Sound(g, n)
  {
  }

  lemma {:induction false} Pop(g: Graph, root: string, seen: set<string>, roles: map<string, set<string>>,
                               edges: seq<Edge>, pending: seq<string>)
    requires Invariant(g, root, seen, roles, edges, pending) && ExploredBut(g, seen, pending, {}, edges)
    requires pending != []
    ensures var n := |pending| - 1; var parent := pending[n];
            && Invariant(g, root, seen, roles, edges, pending[..n])
            && ExploredBut(g, seen, pending[..n], {parent}, edges)
            && parent in seen && parent in g && parent !in pending[..n] && Reachable(g, root, parent)
            && Scanned(parent, [], g, edges)
  {
    var n := |pending| - 1;
    assert pending[n] in Elements(pending);
    assert Elements(pending) == Elements(pending[..n]) + {pending[n]};
    ReachableWhenSeen(g, root, edges, seen, roles, pending[n]);
  }

  lemma {:induction false} InvariantRoles(g: Graph, root: string, seen: set<string>, roles: map<string, set<string>>,
                                          edges: seq<Edge>, pending: seq<string>)
    requires Invariant(g, root, seen, roles, edges, pending)
    ensures RolesBooked(root, edges, roles)
    ensures forall e :: e in edges ==> IsEdge(g, e) && Reachable(g, root, e.parent)
  {
  }

  ghost predicate RowAdded(parent: string, d: Dependency, edges: seq<Edge>, more: seq<Edge>) {
    forall e :: e in more <==> e in edges || (e.parent == parent && e.child == d.pkg && e.role in SelectedRoles(d))
  }

  lemma {:induction false} NothingScanned(g: Graph, parent: string, edges: seq<Edge>)
    requires parent in g && g[parent].deps.Some?
    ensures Scanned(parent, g[parent].deps.value[..0], g, edges)
  {
  }

  lemma {:induction false} ScanJustified(g: Graph, root: string, parent: string, i: nat, edges: seq<Edge>,
                                         more: seq<Edge>)
    requires parent in g && g[parent].deps.Some? && i < |g[parent].deps.value| && Reachable(g, root, parent)
    requires g[parent].deps.value[i].pkg in g
    requires Scanned(parent, g[parent].deps.value[..i], g, edges)
    requires forall e :: e in edges ==> IsEdge(g, e) && Reachable(g, root, e.parent)
    requires RowAdded(parent, g[parent].deps.value[i], edges, more)
    ensures Justified(g, root, more)
    ensures Scanned(parent, g[parent].deps.value[..i + 1], g, more)
  {
    hide Reachable;
    var deps := g[parent].deps.value;
    assert deps[..i + 1] == deps[..i] + [deps[i]];
    assert forall role :: role in SelectedRoles(deps[i]) ==> Lists(deps, deps[i].pkg, role);
  }

  // A row that brings no new node: no selected role, or a child already seen.
  lemma {:induction false} ScanKnown(g: Graph, root: string, parent: string, i: nat, seen: set<string>,
                                     roles: map<string, set<string>>, edges: seq<Edge>, pending: seq<string>,
                                     more: seq<Edge>, moreRoles: map<string, set<string>>)
    requires Invariant(g, root, seen, roles, edges, pending) && ExploredBut(g, seen, pending, {parent}, edges)
    requires parent in g && g[parent].deps.Some? && i < |g[parent].deps.value|
    requires RolesBooked(root, more, moreRoles) && Justified(g, root, more)
    requires RowAdded(parent, g[parent].deps.value[i], edges, more)
    requires SelectedRoles(g[parent].deps.value[i]) == {} || g[parent].deps.value[i].pkg in seen
    ensures Invariant(g, root, seen, moreRoles, more, pending)
    ensures ExploredBut(g, seen, pending, {parent}, more)
  {
    hide Justified, SelectedRoles, RolesBooked, Explored, Children, Scanned;
    ChildrenGrow(edges, more, parent, g[parent].deps.value[i]);
    StillExplored(g, seen, pending, parent, edges, more);
  }

  // A row that brings a new node: it is seen from now on, and waits.
  lemma {:induction false} ScanNew(g: Graph, root: string, parent: string, i: nat, seen: set<string>,
                                   roles: map<string, set<string>>, edges: seq<Edge>, pending: seq<string>,
                                   more: seq<Edge>, moreRoles: map<string, set<string>>)
    requires Invariant(g, root, seen, roles, edges, pending) && ExploredBut(g, seen, pending, {parent}, edges)
    requires parent in g && g[parent].deps.Some? && i < |g[parent].deps.value|
    requires RolesBooked(root, more, moreRoles) && Justified(g, root, more)
    requires RowAdded(parent, g[parent].deps.value[i], edges, more)
    requires SelectedRoles(g[parent].deps.value[i]) != {} && g[parent].deps.value[i].pkg !in seen
    requires g[parent].deps.value[i].pkg in g
    ensures var child := g[parent].deps.value[i].pkg;
            && Invariant(g, root, seen + {child}, moreRoles, more, pending + [child])
            && ExploredBut(g, seen + {child}, pending + [child], {parent}, more)
            && |g.Keys - (seen + {child})| < |g.Keys - seen|
  {
    hide Justified, SelectedRoles, RolesBooked, Explored, Children, Scanned;
    var child := g[parent].deps.value[i].pkg;
    ChildrenGrow(edges, more, parent, g[parent].deps.value[i]);
    StillExplored(g, seen, pending, parent, edges, more);
    assert g.Keys - (seen + {child}) == (g.Keys - seen) - {child};
    assert Elements(pending + [child]) == Elements(pending) + {child};
    assert child !in pending by { assert forall n :: n in pending ==> n in Elements(pending); }
  }

  lemma {:induction false} StillExplored(g: Graph, seen: set<string>, pending: seq<string>, parent: string,
                                         edges: seq<Edge>, more: seq<Edge>)
    requires ExploredBut(g, seen, pending, {parent}, edges)
    requires forall e :: e in edges ==> e in more
    ensures ExploredBut(g, seen, pending, {parent}, more)
  {
    hide IsEdge, Sound;
    forall n | n in seen && n !in pending && n != parent ensures Explored(g, n, more) {
      assert Explored(g, n, edges);
    }
  }

  lemma {:induction false} ScannedExplored(g: Graph, parent: string, seen: set<string>, pending: seq<string>,
                                           edges: seq<Edge>)
    requires parent in g && g[parent].deps.Some? && Scanned(parent, g[parent].deps.value, g, edges)
    requires ExploredBut(g, seen, pending, {parent}, edges)
    ensures ExploredBut(g, seen, pending, {}, edges)
  {
    forall e: Edge | e.parent == parent && IsEdge(g, e) ensures e in edges {
      var deps := g[parent].deps.value;
      var i :| 0 <= i < |deps| && deps[i].pkg == e.child && e.role in SelectedRoles(deps[i]);
      assert e == Edge(parent, deps[i].pkg, e.role);
    }
  }

  lemma {:induction false} IncomingGrow(es: set<Edge>, root: string, e: Edge, n: string)
    ensures IncomingRoles(es + {e}, root, n) == IncomingRoles(es, root, n) + if n == e.child then {e.role} else {}
  {
    var earlier, later := (set x | x in es && x.child == n :: x.role),
        (set x | x in es + {e} && x.child == n :: x.role);
    if n == e.child {
      assert later == earlier + {e.role};
    } else {
      assert later == earlier;
    }
  }

  lemma {:induction false} NoIncoming(es: set<Edge>, root: string, n: string)
    requires n !in Children(es) && n != root
    ensures IncomingRoles(es, root, n) == {}
  {
    assert forall x :: x in es ==> x.child in Children(es);
  }

  lemma {:induction false} AddRole(root: string, edges: seq<Edge>, roles: map<string, set<string>>, e: Edge)
    requires RolesBooked(root, edges, roles)
    ensures RolesBooked(root, edges + [e],
                        roles[e.child := (if e.child in roles then roles[e.child] else {}) + {e.role}])
  {
    var es := Elements(edges);
    var earlier := if e.child in roles then roles[e.child] else {};
    assert Elements(edges + [e]) == es + {e};
    assert Children(es + {e}) == Children(es) + {e.child};
    if e.child !in roles { NoIncoming(es, root, e.child); }
    hide IncomingRoles, Children, Elements;
    assert earlier == IncomingRoles(es, root, e.child);
    var more := roles[e.child := earlier + {e.role}];
    forall n | n in more ensures more[n] == IncomingRoles(es + {e}, root, n) {
      IncomingGrow(es, root, e, n);
      if n != e.child { assert IncomingRoles(es, root, n) + {} == IncomingRoles(es, root, n); }
    }
  }

  lemma {:induction false} ChildrenGrow(edges: seq<Edge>, more: seq<Edge>, parent: string, d: Dependency)
    requires RowAdded(parent, d, edges, more)
    ensures Children(Elements(more)) == Children(Elements(edges)) + if SelectedRoles(d) == {} then {} else {d.pkg}
    ensures forall e :: e in edges ==> e in more
  {
    hide SelectedRoles;
    forall e | e in edges ensures e.child in Children(Elements(more)) {
      assert e in Elements(more);
    }
    if SelectedRoles(d) != {} {
      var role :| role in SelectedRoles(d);
      assert Edge(parent, d.pkg, role) in Elements(more);
    }
  }

  lemma {:induction false} PathExplored(g: Graph, root: string, edges: seq<Edge>, seen: set<string>, path: seq<string>)
    requires path != [] && path[0] == root && IsPath(g, path)
    requires seen == {root} + Children(Elements(edges))
    requires forall n :: n in seen ==> Explored(g, n, edges)
    ensures path[|path| - 1] in seen
    decreases |path|
  {
    if |path| > 1 {
      var front := path[..|path| - 1];
      PathExplored(g, root, edges, seen, front);
      var parent, child := front[|front| - 1], path[|path| - 1];
      assert Links(g, path[|path| - 2], path[|path| - 1]);
      var role :| IsEdge(g, Edge(parent, child, role));
      assert Edge(parent, child, role) in Elements(edges);
    }
  }

  // Once nothing waits, the seen nodes are exactly the reachable ones and all of them are sound.
  lemma {:induction false} SeenReached(g: Graph, root: string, edges: seq<Edge>, seen: set<string>,
                                       roles: map<string, set<string>>, n: string)
    requires Invariant(g, root, seen, roles, edges, []) && ExploredBut(g, seen, [], {}, edges)
    ensures n in seen <==> Reachable(g, root, n)
    ensures n in seen ==> Explored(g, n, edges) && Sound(g, n)
  {
    if n in seen { ReachableWhenSeen(g, root, edges, seen, roles, n); }
    if Reachable(g, root, n) {
      var path :| PathTo(g, root, n, path);
      PathExplored(g, root, edges, seen, path);
    }
  }

  lemma {:induction false} RolesReached(g: Graph, root: string, edges: seq<Edge>, seen: set<string>,
                                        roles: map<string, set<string>>, n: string, role: string)
    requires Invariant(g, root, seen, roles, edges, []) && ExploredBut(g, seen, [], {}, edges) && n in seen
    ensures n in roles && (role in roles[n] <==> HasRole(g, root, n, role))
  {
    hide IsEdge, Reachable, Explored;
    if role in roles[n] && !(n == root && role == "root") {
      var e :| e in Elements(edges) && e.child == n && e.role == role;
      assert e == Edge(e.parent, n, role) && IsEdge(g, e);
    }
    if HasRole(g, root, n, role) && !(n == root && role == "root") {
      var parent :| Reachable(g, root, parent) && IsEdge(g, Edge(parent, n, role));
      SeenReached(g, root, edges, seen, roles, parent);
      EdgeExplored(g, Edge(parent, n, role), edges);
      assert Edge(parent, n, role) in Elements(edges);
    }
  }

  lemma {:induction false} EdgeExplored(g: Graph, e: Edge, edges: seq<Edge>)
    requires Explored(g, e.parent, edges) && IsEdge(g, e)
    ensures e in edges
  {
  }

  lemma {:induction false} EdgesReached(g: Graph, root: string, edges: seq<Edge>, seen: set<string>,
                                        roles: map<string, set<string>>)
    requires Invariant(g, root, seen, roles, edges, []) && ExploredBut(g, seen, [], {}, edges)
    requires StrictTotal(EdgeBefore)
    ensures EdgesCorrect(g, root, SortSet(EdgeBefore, Elements(edges)))
  {
    hide IsEdge, Reachable, RolesBooked, StrictTotal, EdgeBefore, Increasing;
    forall e ensures e in Elements(edges) <==> IsEdge(g, e) && Reachable(g, root, e.parent) {
      if IsEdge(g, e) && Reachable(g, root, e.parent) {
        SeenReached(g, root, edges, seen, roles, e.parent);
        EdgeExplored(g, e, edges);
      }
    }
    hide SortSet, Elements;
  }

  lemma {:induction false} RolesAllReached(g: Graph, root: string, edges: seq<Edge>, seen: set<string>,
                                           roles: map<string, set<string>>)
    requires Invariant(g, root, seen, roles, edges, []) && ExploredBut(g, seen, [], {}, edges)
    ensures roles.Keys == seen && RolesCorrect(g, root, roles)
  {
    assert roles.Keys == seen;
    hide Invariant, ExploredBut, HasRole;
    forall n | n in roles ensures forall role :: role in roles[n] <==> HasRole(g, root, n, role) {
      forall role ensures role in roles[n] <==> HasRole(g, root, n, role) {
        RolesReached(g, root, edges, seen, roles, n, role);
      }
    }
  }

  lemma {:induction false} ClosureReached(g: Graph, root: string, edges: seq<Edge>, seen: set<string>,
                                          roles: map<string, set<string>>)
    requires Invariant(g, root, seen, roles, edges, []) && ExploredBut(g, seen, [], {}, edges)
    requires StrictTotal(EdgeBefore)
    ensures IsClosure(g, root, Closure(seen, roles, SortSet(EdgeBefore, Elements(edges))))
    ensures forall n :: Reachable(g, root, n) ==> Sound(g, n)
  {
    hide Reachable, Invariant, ExploredBut, Sound, EdgesCorrect, RolesCorrect, StrictTotal, SortSet;
    EdgesReached(g, root, edges, seen, roles);
    RolesAllReached(g, root, edges, seen, roles);
    forall n ensures (n in seen <==> Reachable(g, root, n)) && (n in seen ==> Sound(g, n)) {
      SeenReached(g, root, edges, seen, roles, n);
    }
  }

  ghost predicate SameEdges(g: Graph, h: Graph) {
    forall e :: IsEdge(g, e) <==> IsEdge(h, e)
  }

  lemma {:induction false} SameReach(g: Graph, h: Graph, root: string, n: string)
    requires SameEdges(g, h) && Reachable(g, root, n)
    ensures Reachable(h, root, n)
  {
    var path :| PathTo(g, root, n, path);
    forall i | 0 <= i < |path| - 1 ensures Links(h, path[i], path[i + 1]) {
      assert Links(g, path[i], path[i + 1]);
      var role :| IsEdge(g, Edge(path[i], path[i + 1], role));
      assert IsEdge(h, Edge(path[i], path[i + 1], role));
    }
    assert PathTo(h, root, n, path);
  }

  // Graphs with the same selected edges have the same closure: neither the order of the metadata rows
  // nor the order in which the stack is popped shows in the result.
  lemma {:induction false} ClosureUnique(g: Graph, h: Graph, root: string, a: Closure, b: Closure)
    requires SameEdges(g, h) && IsClosure(g, root, a) && IsClosure(h, root, b)
    ensures a == b
  {
    EdgeBeforeStrictTotal();
    forall n ensures Reachable(g, root, n) <==> Reachable(h, root, n) {
      if Reachable(g, root, n) { SameReach(g, h, root, n); }
      if Reachable(h, root, n) { SameReach(h, g, root, n); }
    }
    hide Reachable, IsEdge;
    IncreasingUnique(EdgeBefore, a.edges, b.edges);
    assert a.seen == b.seen;
    forall n | n in a.seen ensures a.roles[n] == b.roles[n] {
      assert forall role :: role in a.roles[n] <==> HasRole(g, root, n, role);
      assert forall role :: role in b.roles[n] <==> HasRole(h, root, n, role);
    }
    assert a.roles == b.roles;
  }

  // Every node of the closure was reached through some role.
  lemma {:induction false} RoleExists(g: Graph, root: string, n: string)
    requires Reachable(g, root, n)
    ensures exists role :: HasRole(g, root, n, role)
    ensures HasRole(g, root, n, "root") <==> n == root
  {
    var path :| PathTo(g, root, n, path);
    if |path| == 1 {
      assert HasRole(g, root, n, "root");
    } else {
      var front := path[..|path| - 1];
      var parent := front[|front| - 1];
      assert Links(g, path[|path| - 2], path[|path| - 1]);
      assert PathTo(g, root, parent, front);
      var role :| IsEdge(g, Edge(parent, n, role));
      assert HasRole(g, root, n, role);
    }
  }

  lemma {:induction false} EdgeEnds(g: Graph, root: string, e: Edge)
    requires IsEdge(g, e) && Reachable(g, root, e.parent)
    ensures Reachable(g, root, e.child) && e.role in {"normal", "build"}
  {
    ReachStep(g, root, e);
  }
}
