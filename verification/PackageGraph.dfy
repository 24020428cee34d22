/** `build_workspace_graph`, `reverse_dependency_closure` and `ordered_subset`
    of scripts/rust_changed_packages.py. Manifest and dependency paths arrive
    already resolved. */
module PackageGraph {
  import opened Results
  import opened Sequences

  datatype Package = Package(id: string, name: string, root: string, dependencies: seq<Option<string>>)

  datatype Info = Info(root: string, deps: set<string>, rdeps: set<string>)

  datatype Graph = Graph(order: seq<string>, info: map<string, Info>, names: map<string, string>)

  // -------------------------------------------- what the package list says

  /** The package a root directory stands for: the last one listed there. */
  function NameAt(packages: seq<Package>, root: string): Option<string> {
    if packages == [] then None
    else
      var last := packages[|packages| - 1];
      if last.root == root then Some(last.name) else NameAt(packages[..|packages| - 1], root)
  }

  function RootOf(packages: seq<Package>, name: string): Option<string> {
    if packages == [] then None
    else
      var last := packages[|packages| - 1];
      if last.name == name then Some(last.root) else RootOf(packages[..|packages| - 1], name)
  }

  function NameOfId(packages: seq<Package>, id: string): Option<string> {
    if packages == [] then None
    else
      var last := packages[|packages| - 1];
      if last.id == id then Some(last.name) else NameOfId(packages[..|packages| - 1], id)
  }

  /** Each table holds what the last entry with the key says: `i` is its place, or
      -1 if there is none. */
  lemma {:induction false} NameAtLast(packages: seq<Package>, key: string, i: int)
    requires -1 <= i < |packages| && (i >= 0 ==> packages[i].root == key)
    requires forall j :: i < j < |packages| ==> packages[j].root != key
    ensures NameAt(packages, key) == if i < 0 then None else Some(packages[i].name)
    decreases |packages|
  {
    var n := |packages| - 1;
    if i < n {
      NameAtLast(packages[..n], key, i);
    }
  }

  lemma {:induction false} RootOfLast(packages: seq<Package>, key: string, i: int)
    requires -1 <= i < |packages| && (i >= 0 ==> packages[i].name == key)
    requires forall j :: i < j < |packages| ==> packages[j].name != key
    ensures RootOf(packages, key) == if i < 0 then None else Some(packages[i].root)
    decreases |packages|
  {
    var n := |packages| - 1;
    if i < n {
      RootOfLast(packages[..n], key, i);
    }
  }

  lemma {:induction false} NameOfIdLast(packages: seq<Package>, key: string, i: int)
    requires -1 <= i < |packages| && (i >= 0 ==> packages[i].id == key)
    requires forall j :: i < j < |packages| ==> packages[j].id != key
    ensures NameOfId(packages, key) == if i < 0 then None else Some(packages[i].name)
    decreases |packages|
  {
    var n := |packages| - 1;
    if i < n {
      NameOfIdLast(packages[..n], key, i);
    }
  }

  /** Some package called `n` has a path dependency on the root of `m`. */
  ghost predicate DependsOn(packages: seq<Package>, n: string, m: string) {
    exists i, j :: Edge(packages, i, j, n, m)
  }

  ghost predicate Edge(packages: seq<Package>, i: int, j: int, n: string, m: string) {
    && 0 <= i < |packages| && 0 <= j < |packages[i].dependencies|
    && packages[i].name == n
    && packages[i].dependencies[j].Some?
    && NameAt(packages, packages[i].dependencies[j].value) == Some(m)
  }

  /** The edges met before dependency `j` of package `i`. */
  ghost predicate SeenEdge(packages: seq<Package>, i: int, j: int, n: string, m: string) {
    exists a, b :: Edge(packages, a, b, n, m) && (a < i || (a == i && b < j))
  }

  ghost predicate IsGraphOf(packages: seq<Package>, g: Graph) {
    && (forall n :: n in g.info <==> RootOf(packages, n).Some?)
    && (forall n :: n in g.info ==> RootOf(packages, n) == Some(g.info[n].root))
    && (forall r :: r in g.names <==> NameAt(packages, r).Some?)
    && (forall r :: r in g.names ==> NameAt(packages, r) == Some(g.names[r]))
    && (forall n, m :: n in g.info && m in g.info[n].deps <==> DependsOn(packages, n, m))
    && (forall n, m :: m in g.info && n in g.info[m].rdeps <==> DependsOn(packages, n, m))
  }

  lemma {:induction false} NamedAtIsPackage(packages: seq<Package>, root: string)
    ensures var n := NameAt(packages, root); n.Some? ==> RootOf(packages, n.value).Some?
  {
    if packages == [] {
    } else {
      NamedAtIsPackage(packages[..|packages| - 1], root);
    }
  }

  lemma {:induction false} ListedHasRoot(packages: seq<Package>, i: nat)
    requires i < |packages|
    ensures RootOf(packages, packages[i].name).Some?
  {
    if i < |packages| - 1 {
      ListedHasRoot(packages[..|packages| - 1], i);
    }
  }

  // ------------------------------------------------------- building the graph

  datatype Tables = Tables(info: map<string, Info>, names: map<string, string>)

  ghost predicate Registered(packages: seq<Package>, t: Tables) {
    && (forall n :: n in t.info <==> RootOf(packages, n).Some?)
    && (forall n :: n in t.info ==> RootOf(packages, n) == Some(t.info[n].root))
    && (forall r :: r in t.names <==> NameAt(packages, r).Some?)
    && (forall r :: r in t.names ==> NameAt(packages, r) == Some(t.names[r]))
  }

  ghost predicate NoEdges(t: Tables) {
    forall n :: n in t.info ==> t.info[n].deps == {} && t.info[n].rdeps == {}
  }

  method Register(packages: seq<Package>) returns (t: Tables)
    ensures Registered(packages, t) && NoEdges(t)
  {
    var info: map<string, Info>, names: map<string, string> := map[], map[];
    var i := 0;
    while i < |packages|
      invariant 0 <= i <= |packages|
      invariant Registered(packages[..i], Tables(info, names)) && NoEdges(Tables(info, names))
    {
      var p := packages[i];
      assert packages[..i + 1][..i] == packages[..i] && packages[..i + 1][i] == p;
      info := info[p.name := Info(p.root, {}, {})];
      names := names[p.root := p.name];
      i := i + 1;
    }
    assert packages[..i] == packages;
    t := Tables(info, names);
  }

  ghost predicate Linked(packages: seq<Package>, t: Tables, i: int, j: int) {
    && (forall n, m :: n in t.info && m in t.info[n].deps <==> SeenEdge(packages, i, j, n, m))
    && (forall n, m :: m in t.info && n in t.info[m].rdeps <==> SeenEdge(packages, i, j, n, m))
  }

  lemma SeenNext(packages: seq<Package>, i: nat, j: nat, next: nat, n: string, m: string)
    requires next == j + 1
    ensures SeenEdge(packages, i, next, n, m) <==> SeenEdge(packages, i, j, n, m) || Edge(packages, i, j, n, m)
  {
    if SeenEdge(packages, i, next, n, m) {
      var a, b :| Edge(packages, a, b, n, m) && (a < i || (a == i && b < next));
      assert (a == i && b == j) || a < i || (a == i && b < j);
    }
  }

  lemma SeenRow(packages: seq<Package>, i: nat, j: nat, next: nat, n: string, m: string)
    requires i < |packages| && j == |packages[i].dependencies| && next == i + 1
    ensures SeenEdge(packages, next, 0, n, m) <==> SeenEdge(packages, i, j, n, m)
  {
    if SeenEdge(packages, next, 0, n, m) {
      var a, b :| Edge(packages, a, b, n, m) && (a < next || (a == next && b < 0));
      assert a < i || (a == i && b < j);
    }
  }

  lemma SeenAll(packages: seq<Package>, n: string, m: string)
    ensures SeenEdge(packages, |packages|, 0, n, m) <==> DependsOn(packages, n, m)
  {
    if DependsOn(packages, n, m) {
      var a, b :| Edge(packages, a, b, n, m);
      assert a < |packages|;
    }
  }

  /** Adding one edge to both ends. */
  function AddEdge(t: Tables, n: string, m: string): Tables
    requires n in t.info && m in t.info
  {
    var from := t.info[n := t.info[n].(deps := t.info[n].deps + {m})];
    Tables(from[m := from[m].(rdeps := from[m].rdeps + {n})], t.names)
  }

  lemma AddedEdge(t: Tables, n: string, m: string)
    requires n in t.info && m in t.info
    ensures var u := AddEdge(t, n, m);
      && u.info.Keys == t.info.Keys && u.names == t.names
      && (forall x :: x in t.info ==> u.info[x].root == t.info[x].root)
      && (forall x, y :: x in u.info && y in u.info[x].deps <==>
        (x in t.info && y in t.info[x].deps) || (x == n && y == m))
      && (forall x, y :: y in u.info && x in u.info[y].rdeps <==>
        (y in t.info && x in t.info[y].rdeps) || (x == n && y == m))
  {
  }

  lemma LinkStep(packages: seq<Package>, t: Tables, i: nat, j: nat, next: nat)
    requires next == j + 1
    requires Registered(packages, t) && Linked(packages, t, i, j)
    requires i < |packages| && j < |packages[i].dependencies|
    requires packages[i].dependencies[j].Some? && packages[i].dependencies[j].value in t.names
    ensures packages[i].name in t.info && t.names[packages[i].dependencies[j].value] in t.info
    ensures var u := AddEdge(t, packages[i].name, t.names[packages[i].dependencies[j].value]);
      Registered(packages, u) && Linked(packages, u, i, next)
  {
    hide AddEdge, NameAt, RootOf, SeenEdge;
    var n, path := packages[i].name, packages[i].dependencies[j].value;
    var m := t.names[path];
    ListedHasRoot(packages, i);
    NamedAtIsPackage(packages, path);
    AddedEdge(t, n, m);
    forall x, y ensures SeenEdge(packages, i, next, x, y) <==> SeenEdge(packages, i, j, x, y) || (x == n && y == m) {
      SeenNext(packages, i, j, next, x, y);
    }
  }

  lemma SkipStep(packages: seq<Package>, t: Tables, i: nat, j: nat, next: nat)
    requires next == j + 1
    requires Registered(packages, t) && Linked(packages, t, i, j)
    requires i < |packages| && j < |packages[i].dependencies|
    requires packages[i].dependencies[j].None? || packages[i].dependencies[j].value !in t.names
    ensures Linked(packages, t, i, next)
  {
    hide NameAt, RootOf, SeenEdge;
    forall x, y ensures SeenEdge(packages, i, next, x, y) <==> SeenEdge(packages, i, j, x, y) {
      SeenNext(packages, i, j, next, x, y);
    }
  }

  method Link(packages: seq<Package>, registered: Tables) returns (t: Tables)
    requires Registered(packages, registered) && NoEdges(registered)
    ensures Registered(packages, t) && Linked(packages, t, |packages|, 0)
  {
    hide NameAt, RootOf, SeenEdge, AddEdge, Registered, Linked;
    t := registered;
    Unlinked(packages, t);
    var i := 0;
    while i < |packages|
      invariant 0 <= i <= |packages|
      invariant Registered(packages, t) && Linked(packages, t, i, 0)
    {
      var name, dependencies := packages[i].name, packages[i].dependencies;
      var j := 0;
      while j < |dependencies|
        invariant 0 <= j <= |dependencies|
        invariant Registered(packages, t) && Linked(packages, t, i, j)
      {
        if dependencies[j].None? || dependencies[j].value !in t.names {
          SkipStep(packages, t, i, j, j + 1);
        } else {
          LinkStep(packages, t, i, j, j + 1);
          t := AddEdge(t, name, t.names[dependencies[j].value]);
        }
        j := j + 1;
      }
      RowDone(packages, t, i, j, i + 1);
      i := i + 1;
    }
  }

  lemma Unlinked(packages: seq<Package>, t: Tables)
    requires NoEdges(t)
    ensures Linked(packages, t, 0, 0)
  {
    forall n, m ensures !SeenEdge(packages, 0, 0, n, m) {
    }
  }

  lemma RowDone(packages: seq<Package>, t: Tables, i: nat, j: nat, next: nat)
    requires i < |packages| && j == |packages[i].dependencies| && next == i + 1
    requires Linked(packages, t, i, j)
    ensures Linked(packages, t, next, 0)
  {
    hide SeenEdge;
    forall n, m ensures SeenEdge(packages, next, 0, n, m) <==> SeenEdge(packages, i, j, n, m) {
      SeenRow(packages, i, j, next, n, m);
    }
  }

  ghost predicate FirstUnlisted(packages: seq<Package>, members: seq<string>, id: string) {
    exists i :: 0 <= i < |members| && members[i] == id && NameOfId(packages, id).None? &&
      forall k :: 0 <= k < i ==> NameOfId(packages, members[k]).Some?
  }

  /** The graph holds every path dependency between listed packages and its
      reverse, and nothing else. It is an error, naming the first one, when a
      workspace member is not listed. */
  method BuildWorkspaceGraph(packages: seq<Package>, members: seq<string>) returns (r: Result<Graph, string>)
    ensures r.Ok? <==> forall i :: 0 <= i < |members| ==> NameOfId(packages, members[i]).Some?
    ensures r.Ok? ==> IsGraphOf(packages, r.value) && |r.value.order| == |members|
    ensures r.Ok? ==> forall i :: 0 <= i < |members| ==> NameOfId(packages, members[i]) == Some(r.value.order[i])
    ensures r.Err? ==> FirstUnlisted(packages, members, r.error)
  {
    hide NameAt, RootOf, NameOfId, SeenEdge, Edge, Linked;
    var byId := PackagesById(packages);
    var order: seq<string> := [];
    while |order| < |members|
      invariant |order| <= |members|
      invariant forall i :: 0 <= i < |order| ==> NameOfId(packages, members[i]) == Some(order[i])
    {
      var id := members[|order|];
      if id !in byId {
        return Err(id);
      }
      order := order + [byId[id]];
    }
    var t := Register(packages);
    t := Link(packages, t);
    AllLinked(packages, t);
    r := Ok(Graph(order, t.info, t.names));
  }

  lemma AllLinked(packages: seq<Package>, t: Tables)
    requires Linked(packages, t, |packages|, 0)
    ensures forall n, m :: n in t.info && m in t.info[n].deps <==> DependsOn(packages, n, m)
    ensures forall n, m :: m in t.info && n in t.info[m].rdeps <==> DependsOn(packages, n, m)
  {
    hide SeenEdge, DependsOn;
    forall n, m ensures SeenEdge(packages, |packages|, 0, n, m) <==> DependsOn(packages, n, m) {
      SeenAll(packages, n, m);
    }
  }

  method PackagesById(packages: seq<Package>) returns (byId: map<string, string>)
    ensures forall id :: id in byId <==> NameOfId(packages, id).Some?
    ensures forall id :: id in byId ==> NameOfId(packages, id) == Some(byId[id])
  {
    byId := map[];
    var i := 0;
    while i < |packages|
      invariant 0 <= i <= |packages|
      invariant forall id :: id in byId <==> NameOfId(packages[..i], id).Some?
      invariant forall id :: id in byId ==> NameOfId(packages[..i], id) == Some(byId[id])
    {
      assert packages[..i + 1][..i] == packages[..i] && packages[..i + 1][i] == packages[i];
      byId := byId[packages[i].id := packages[i].name];
      i := i + 1;
    }
    assert packages[..i] == packages;
  }

  // ------------------------------------------------------------------ closure

  /** Each name is a direct dependent of the one before it. */
  ghost predicate DependentChain(info: map<string, Info>, p: seq<string>) {
    p != [] && forall i :: 0 <= i < |p| - 1 ==> p[i] in info && p[i + 1] in info[p[i]].rdeps
  }

  ghost predicate Reached(info: map<string, Info>, direct: set<string>, n: string) {
    exists p :: DependentChain(info, p) && p[0] in direct && p[|p| - 1] == n
  }

  ghost predicate Closed(info: map<string, Info>, s: set<string>) {
    forall n :: n in s && n in info ==> info[n].rdeps <= s
  }

  lemma ReachedStep(info: map<string, Info>, direct: set<string>, n: string, d: string)
    requires Reached(info, direct, n) && n in info && d in info[n].rdeps
    ensures Reached(info, direct, d)
  {
    var p :| DependentChain(info, p) && p[0] in direct && p[|p| - 1] == n;
    assert DependentChain(info, p + [d]) && (p + [d])[0] in direct;
  }

  lemma ReachedStart(info: map<string, Info>, direct: set<string>)
    ensures forall n :: n in direct ==> Reached(info, direct, n)
  {
    forall n | n in direct ensures Reached(info, direct, n) {
      assert DependentChain(info, [n]);
    }
  }

  lemma {:induction false} ChainStays(info: map<string, Info>, s: set<string>, p: seq<string>)
    requires Closed(info, s) && DependentChain(info, p) && p[0] in s
    ensures p[|p| - 1] in s
  {
    if |p| <= 1 {
    } else {
      ChainStays(info, s, p[1..]);
    }
  }

  /** A closed set that holds the direct names holds everything reached. */
  lemma ReachedStays(info: map<string, Info>, direct: set<string>, s: set<string>)
    requires Closed(info, s) && direct <= s
    ensures forall n :: Reached(info, direct, n) ==> n in s
  {
    forall n | Reached(info, direct, n) ensures n in s {
      var p :| DependentChain(info, p) && p[0] in direct && p[|p| - 1] == n;
      ChainStays(info, s, p);
    }
  }

  /** The names reached from the direct ones are the least closed set that
      contains them. */
  lemma ReachedIsLeastClosed(info: map<string, Info>, direct: set<string>, c: set<string>)
    requires forall n :: n in c <==> Reached(info, direct, n)
    ensures direct <= c && Closed(info, c)
    ensures forall s: set<string> :: Closed(info, s) && direct <= s ==> c <= s
  {
    ReachedStart(info, direct);
    forall n | n in c && n in info ensures info[n].rdeps <= c {
      forall d | d in info[n].rdeps ensures d in c {
        ReachedStep(info, direct, n, d);
      }
    }
    forall s: set<string> | Closed(info, s) && direct <= s ensures c <= s {
      ReachedStays(info, direct, s);
    }
  }

  ghost function Mentioned(info: map<string, Info>): set<string> {
    set n, d | n in info && d in info[n].rdeps :: d
  }

  method Listed(s: set<string>) returns (xs: seq<string>)
    ensures forall x :: x in xs <==> x in s
  {
    var todo := s;
    xs := [];
    while todo != {}
      invariant todo <= s && forall x :: x in xs <==> x in s - todo
      decreases |todo|
    {
      var x :| x in todo;
      xs, todo := xs + [x], todo - {x};
    }
  }

  /** Queue the dependents of one name that are not in the closure yet. */
  method Enqueue(dependents: set<string>, closure: set<string>, queue: seq<string>)
    returns (closure': set<string>, queue': seq<string>)
    ensures closure' == closure + dependents
    ensures forall x :: x in queue' <==> x in queue || (x in dependents && x !in closure)
    ensures closure' == closure ==> queue' == queue
  {
    closure', queue' := closure, queue;
    var todo := dependents;
    while todo != {}
      invariant todo <= dependents && closure' == closure + (dependents - todo)
      invariant forall x :: x in queue' <==> x in queue || (x in dependents - todo && x !in closure)
      invariant closure' == closure ==> queue' == queue
      decreases |todo|
    {
      var d :| d in todo;
      if d !in closure' {
        closure' := closure' + {d};
        queue' := queue' + [d];
      }
      todo := todo - {d};
    }
  }

  lemma SmallerRest(universe: set<string>, a: set<string>, b: set<string>)
    requires a <= b <= universe
    ensures a == b || |universe - b| < |universe - a|
  {
    SubsetSize(universe - b, universe - a);
    assert universe - a == universe - b ==> a == b;
  }

  /** Names are queued or done; the dependents of done names are collected. */
  ghost predicate Frontier(info: map<string, Info>, direct: set<string>, closure: set<string>, queue: seq<string>,
      done: set<string>)
  {
    && direct <= closure <= direct + Mentioned(info)
    && (forall n :: n in closure <==> n in queue || n in done)
    && (forall n :: n in closure ==> Reached(info, direct, n))
    && (forall n :: n in done ==> n in info && info[n].rdeps <= closure)
  }

  lemma FrontierStep(info: map<string, Info>, direct: set<string>, closure: set<string>, queue: seq<string>,
      done: set<string>, closure': set<string>, queue': seq<string>)
    requires Frontier(info, direct, closure, queue, done) && queue != [] && queue[0] in info
    requires closure' == closure + info[queue[0]].rdeps
    requires forall x :: x in queue' <==> x in queue[1..] || (x in info[queue[0]].rdeps && x !in closure)
    ensures Frontier(info, direct, closure', queue', done + {queue[0]})
  {
    hide Reached;
    var current := queue[0];
    assert forall n :: n in queue <==> n == current || n in queue[1..];
    forall d | d in info[current].rdeps ensures Reached(info, direct, d) {
      ReachedStep(info, direct, current, d);
    }
  }

  /** Breadth-first closure: all names reached, or the name of one that is
      reached but unknown. */
  method ReverseDependencyClosure(direct: set<string>, info: map<string, Info>) returns (r: Result<set<string>, string>)
    ensures r.Ok? ==> (forall n :: n in r.value <==> Reached(info, direct, n)) && r.value <= info.Keys
    ensures r.Err? ==> Reached(info, direct, r.error) && r.error !in info
  {
    hide Reached, Mentioned;
    ReachedStart(info, direct);
    var closure := direct;
    var queue := Listed(direct);
    ghost var universe := direct + Mentioned(info);
    ghost var done: set<string> := {};
    while queue != []
      invariant Frontier(info, direct, closure, queue, done)
      decreases |universe - closure|, |queue|
    {
      var current := queue[0];
      if current !in info {
        return Err(current);
      }
      var closure', queue' := Enqueue(info[current].rdeps, closure, queue[1..]);
      FrontierStep(info, direct, closure, queue, done, closure', queue');
      SmallerRest(universe, closure, closure');
      closure, queue, done := closure', queue', done + {current};
    }
    ReachedStays(info, direct, closure);
    r := Ok(closure);
  }

  // --------------------------------------------------------- what is selected

  /** Each name depends on the next. */
  ghost predicate DependencyChain(packages: seq<Package>, p: seq<string>) {
    p != [] && forall i :: 0 <= i < |p| - 1 ==> DependsOn(packages, p[i], p[i + 1])
  }

  ghost predicate ReachesDirect(packages: seq<Package>, direct: set<string>, n: string) {
    exists p :: DependencyChain(packages, p) && p[0] == n && p[|p| - 1] in direct
  }

  ghost function Backwards(p: seq<string>): (q: seq<string>)
    ensures |q| == |p| && forall i :: 0 <= i < |p| ==> q[i] == p[|p| - 1 - i]
  {
    seq(|p|, i requires 0 <= i < |p| => p[|p| - 1 - i])
  }

  /** A package is reached exactly when it depends, directly or through other
      packages, on a direct one. */
  lemma ReachedIsDependent(packages: seq<Package>, g: Graph, direct: set<string>, n: string)
    requires IsGraphOf(packages, g)
    ensures Reached(g.info, direct, n) <==> ReachesDirect(packages, direct, n)
  {
    hide DependsOn, NameAt, RootOf;
    if Reached(g.info, direct, n) {
      var p :| DependentChain(g.info, p) && p[0] in direct && p[|p| - 1] == n;
      var q := Backwards(p);
      forall i | 0 <= i < |q| - 1 ensures DependsOn(packages, q[i], q[i + 1]) {
        var k := |p| - 2 - i;
        assert p[k] in g.info && p[k + 1] in g.info[p[k]].rdeps;
      }
      assert DependencyChain(packages, q) && q[0] == n && q[|q| - 1] in direct;
    }
    if ReachesDirect(packages, direct, n) {
      var p :| DependencyChain(packages, p) && p[0] == n && p[|p| - 1] in direct;
      var q := Backwards(p);
      forall i | 0 <= i < |q| - 1 ensures q[i] in g.info && q[i + 1] in g.info[q[i]].rdeps {
        var k := |p| - 2 - i;
        assert DependsOn(packages, p[k], p[k + 1]);
      }
      assert DependentChain(g.info, q) && q[0] in direct && q[|q| - 1] == n;
    }
  }

  /** Graph edges stay inside the graph, so closing known direct names never
      meets an unknown one. */
  lemma ReachedIsKnown(packages: seq<Package>, g: Graph, direct: set<string>, n: string)
    requires IsGraphOf(packages, g) && direct <= g.info.Keys && Reached(g.info, direct, n)
    ensures n in g.info
  {
    hide NameAt, RootOf, DependsOn;
    assert Closed(g.info, g.info.Keys);
    ReachedStays(g.info, direct, g.info.Keys);
  }

  // ----------------------------------------------------------- ordered output

  function OrderedSubset(names: set<string>, order: seq<string>): seq<string> {
    if order == [] then []
    else if order[0] in names then [order[0]] + OrderedSubset(names, order[1..])
    else OrderedSubset(names, order[1..])
  }

  /** The output is the workspace order with everything else taken out: what is
      selected keeps its place and its multiplicity. */
  lemma {:induction false} OrderedSubsetSplit(names: set<string>, a: seq<string>, b: seq<string>)
    ensures OrderedSubset(names, a + b) == OrderedSubset(names, a) + OrderedSubset(names, b)
  {
    if a == [] {
      assert a + b == b;
    } else {
      assert (a + b)[1..] == a[1..] + b;
      OrderedSubsetSplit(names, a[1..], b);
    }
  }

  lemma {:induction false} OrderedSubsetCounts(names: set<string>, order: seq<string>, x: string)
    ensures multiset(OrderedSubset(names, order))[x] == if x in names then multiset(order)[x] else 0
  {
    if order == [] {
    } else {
      OrderedSubsetCounts(names, order[1..], x);
      assert order == [order[0]] + order[1..];
    }
  }

  lemma OrderedSubsetMembers(names: set<string>, order: seq<string>)
    ensures forall x :: x in OrderedSubset(names, order) <==> x in order && x in names
  {
    forall x ensures x in OrderedSubset(names, order) <==> x in order && x in names {
      OrderedSubsetCounts(names, order, x);
    }
  }

  // ---------------------------------------------------------------- the selection

  /** An unknown name is reached only as a direct one. */
  lemma UnknownIsDirect(packages: seq<Package>, g: Graph, direct: set<string>, n: string)
    requires IsGraphOf(packages, g) && Reached(g.info, direct, n) && n !in g.info
    ensures n in direct
  {
    hide NameAt, RootOf, DependsOn;
    var p :| DependentChain(g.info, p) && p[0] in direct && p[|p| - 1] == n;
    StepIsKnown(packages, g, p);
  }

  lemma StepIsKnown(packages: seq<Package>, g: Graph, p: seq<string>)
    requires IsGraphOf(packages, g) && DependentChain(g.info, p)
    ensures |p| > 1 ==> p[|p| - 1] in g.info
  {
    hide NameAt, RootOf, DependsOn;
    if |p| > 1 {
      assert p[|p| - 2] in g.info && p[|p| - 2 + 1] in g.info[p[|p| - 2]].rdeps;
    }
  }

  /** From the package list to the output: the names of the workspace members,
      in workspace order, that depend through some chain of path dependencies on
      a direct package, or without dependents the direct ones alone. It is an
      error when a member is not listed, or dependents are asked for and a direct
      package is not, and only then. */
  method SelectPackages(packages: seq<Package>, members: seq<string>, direct: set<string>, noDependents: bool)
    returns (r: Result<seq<string>, string>)
    ensures r.Ok? <==>
      && (forall i :: 0 <= i < |members| ==> NameOfId(packages, members[i]).Some?)
      && (noDependents || forall n :: n in direct ==> RootOf(packages, n).Some?)
    ensures r.Ok? ==> forall n :: n in r.value <==>
      && (exists i :: 0 <= i < |members| && NameOfId(packages, members[i]) == Some(n))
      && (if noDependents then n in direct else ReachesDirect(packages, direct, n))
    ensures r.Ok? ==> exists order: seq<string>, names: set<string> ::
      && |order| == |members| && (forall i :: 0 <= i < |order| ==> NameOfId(packages, members[i]) == Some(order[i]))
      && r.value == OrderedSubset(names, order)
    ensures r.Err? ==> FirstUnlisted(packages, members, r.error) || (r.error in direct && RootOf(packages, r.error).None?)
  {
    hide NameAt, RootOf, NameOfId, DependsOn, Reached, ReachesDirect, OrderedSubset;
    var built := BuildWorkspaceGraph(packages, members);
    if built.Err? {
      return Err(built.error);
    }
    var g := built.value;
    if noDependents {
      OrderedSubsetMembers(direct, g.order);
      return Ok(OrderedSubset(direct, g.order));
    }
    var closed := ReverseDependencyClosure(direct, g.info);
    ReachedStart(g.info, direct);
    if closed.Err? {
      UnknownIsDirect(packages, g, direct, closed.error);
      return Err(closed.error);
    }
    r := Ok(OrderedSubset(closed.value, g.order));
    OrderedSubsetMembers(closed.value, g.order);
    forall n ensures Reached(g.info, direct, n) <==> ReachesDirect(packages, direct, n) {
      ReachedIsDependent(packages, g, direct, n);
    }
    forall n | n in direct ensures RootOf(packages, n).Some? {
      assert n in closed.value;
    }
  }
}
