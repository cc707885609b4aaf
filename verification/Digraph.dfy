/** Finite directed graphs of task dependencies, and the two depth-first searches that
    the task controller runs over them (packages/control-plane/src/TaskController.ts). */
module Digraph {

  datatype Id = Id(name: string)

  /** `g[u]` lists the prerequisites of `u`; an id outside `g.Keys` has none. */
  type Graph = map<Id, seq<Id>>

  function Out(g: Graph, u: Id): seq<Id> {
    if u in g then g[u] else []
  }

  predicate Edge(g: Graph, u: Id, v: Id) {
    v in Out(g, u)
  }

  ghost predicate Path(g: Graph, p: seq<Id>) {
    forall i, j :: 0 <= i < j < |p| && j == i + 1 ==> Edge(g, p[i], p[j])
  }

  ghost predicate CyclePath(g: Graph, p: seq<Id>) {
    |p| >= 2 && Path(g, p) && p[0] == p[|p| - 1]
  }

  ghost predicate Cyclic(g: Graph) {
    exists p :: CyclePath(g, p)
  }

  /** There is a path of any length, one of length zero included, from `u` to `v`. */
  ghost predicate Reaches(g: Graph, u: Id, v: Id) {
    exists p :: JoinsUp(g, p, u, v)
  }

  ghost predicate JoinsUp(g: Graph, p: seq<Id>, u: Id, v: Id) {
    p != [] && Path(g, p) && p[0] == u && p[|p| - 1] == v
  }

  /** Every successor of `done[i]` that is a node of the graph occurs before position `i`. */
  ghost predicate Settled(g: Graph, done: seq<Id>) {
    forall i, v :: 0 <= i < |done| && Edge(g, done[i], v) && v in g ==> v in done[..i]
  }

  predicate Distinct(s: seq<Id>) {
    forall i, j :: 0 <= i < j < |s| ==> s[i] != s[j]
  }

  ghost predicate Enumerates(s: seq<Id>, ids: set<Id>) {
    Distinct(s) && forall id :: id in s <==> id in ids
  }

  function IndexOf(s: seq<Id>, x: Id): (k: nat)
    requires x in s
    ensures k < |s| && s[k] == x
    ensures forall j :: 0 <= j < k ==> s[j] != x
  {
    if s[0] == x then 0 else 1 + IndexOf(s[1..], x)
  }

  /** Along a path inside a settled list, first positions strictly decrease. */
  lemma {:induction false} SettledDescends(g: Graph, done: seq<Id>, p: seq<Id>, j: nat)
    requires Settled(g, done) && Path(g, p) && j < |p|
    requires forall i :: 0 <= i < |p| ==> p[i] in g && p[i] in done
    ensures IndexOf(done, p[j]) + j <= IndexOf(done, p[0])
  {
    if j > 0 {
      SettledDescends(g, done, p, j - 1);
      var k := IndexOf(done, p[j - 1]);
      assert Edge(g, p[j - 1], p[j - 1 + 1]);
      assert p[j] in done[..k];
      var i :| 0 <= i < k && done[i] == p[j];
    }
  }

  /** A settled list that covers the graph rules out every cycle. */
  lemma {:induction false} SettledIsAcyclic(g: Graph, done: seq<Id>)
    requires Settled(g, done)
    requires forall id :: id in g ==> id in done
    ensures !Cyclic(g)
  {
    if Cyclic(g) {
      var p :| CyclePath(g, p);
      forall i | 0 <= i < |p|
        ensures p[i] in g && p[i] in done
      {
        var k := if i == |p| - 1 then 0 else i;
        assert Edge(g, p[k], p[k + 1]);
      }
      SettledDescends(g, done, p, |p| - 1);
      assert false;
    }
  }

  /** Cutting a path at a repeated node leaves a cycle. */
  lemma {:induction false} ClosedSuffixIsCycle(g: Graph, stack: seq<Id>, v: Id)
    requires v in stack && Path(g, stack) && Edge(g, stack[|stack| - 1], v)
    ensures CyclePath(g, stack[IndexOf(stack, v)..] + [v])
  {
    var k := IndexOf(stack, v);
    var p := stack[k..] + [v];
    forall i | 0 <= i < |p| - 1
      ensures Edge(g, p[i], p[i + 1])
    {
      assert p[i] == stack[k + i];
      if i < |p| - 2 {
        assert Edge(g, stack[k + i], stack[k + i + 1]);
      }
    }
  }

  lemma {:induction false} PathExtends(g: Graph, stack: seq<Id>, u: Id)
    requires Path(g, stack)
    requires stack == [] || Edge(g, stack[|stack| - 1], u)
    ensures Path(g, stack + [u])
  {
    var p := stack + [u];
    forall i | 0 <= i < |p| - 1
      ensures Edge(g, p[i], p[i + 1])
    {
      if i < |stack| - 1 {
        assert Edge(g, stack[i], stack[i + 1]);
      }
    }
  }

  // ---------------------------------------------------------------- one more edge

  lemma {:induction false} PathsConcat(g: Graph, p: seq<Id>, q: seq<Id>)
    requires Path(g, p) && Path(g, q) && p != [] && q != [] && Edge(g, p[|p| - 1], q[0])
    ensures Path(g, p + q)
  {
    var r := p + q;
    forall i, j | 0 <= i < j < |r| && j == i + 1
      ensures Edge(g, r[i], r[j])
    {
      if j < |p| {
        assert r[i] == p[i] && r[j] == p[j];
      } else if i >= |p| {
        assert r[i] == q[i - |p|] && r[j] == q[j - |p|];
      }
    }
  }

  lemma {:induction false} ReachesSelf(g: Graph, u: Id)
    ensures Reaches(g, u, u)
  {
    assert JoinsUp(g, [u], u, u);
  }

  lemma {:induction false} ReachesBeyond(g: Graph, u: Id, v: Id, w: Id)
    requires Reaches(g, u, v) && Edge(g, v, w)
    ensures Reaches(g, u, w)
  {
    var p :| JoinsUp(g, p, u, v);
    PathsConcat(g, p, [w]);
    assert JoinsUp(g, p + [w], u, w);
  }

  lemma {:induction false} ReachesThrough(g: Graph, u: Id, v: Id, p: seq<Id>)
    requires Reaches(g, u, v) && Path(g, p) && p != [] && p[0] == v
    ensures Reaches(g, u, p[|p| - 1])
    decreases |p|
  {
    if |p| > 1 {
      var before := p[..|p| - 1];
      assert p == before + [p[|p| - 1]];
      PathPrefix(g, before, p[|p| - 1]);
      ReachesThrough(g, u, v, before);
      assert Edge(g, p[|p| - 2], p[|p| - 1]);
      ReachesBeyond(g, u, p[|p| - 2], p[|p| - 1]);
    }
  }

  /** `h` has the edges of `g` and one from `t` to `p`. */
  ghost predicate AddsEdge(g: Graph, h: Graph, t: Id, p: Id) {
    forall u, v :: Edge(h, u, v) <==> Edge(g, u, v) || (u == t && v == p)
  }

  /** Some path of at least one edge leads from `u` to `v`. */
  ghost predicate Leads(g: Graph, u: Id, v: Id) {
    exists w :: Reaches(g, u, w) && Edge(g, w, v)
  }

  /** A walk with the new edge either does without it, or uses it a last time. */
  lemma {:induction false} WalkSplits(g: Graph, h: Graph, t: Id, p: Id, walk: seq<Id>)
    requires AddsEdge(g, h, t, p) && |walk| >= 2 && Path(h, walk)
    ensures var u, v := walk[0], walk[|walk| - 1];
            Leads(g, u, v) || (Reaches(g, u, t) && Reaches(g, p, v))
    decreases |walk|
  {
    var n := |walk| - 1;
    var u, w, v := walk[0], walk[n - 1], walk[n];
    var before := walk[..n];
    assert walk == before + [v] && Edge(h, walk[n - 1], walk[n]);
    PathPrefix(h, before, v);
    ReachesSelf(g, u);
    ReachesSelf(g, p);
    if n >= 2 {
      WalkSplits(g, h, t, p, before);
      if Leads(g, u, w) {
        var x :| Reaches(g, u, x) && Edge(g, x, w);
        ReachesBeyond(g, u, x, w);
      } else if Edge(g, w, v) {
        ReachesBeyond(g, p, w, v);
      }
    }
  }

  lemma {:induction false} LeadsBackIsCycle(g: Graph, u: Id)
    requires Leads(g, u, u)
    ensures Cyclic(g)
  {
    var w :| Reaches(g, u, w) && Edge(g, w, u);
    var q :| JoinsUp(g, q, u, w);
    PathsConcat(g, q, [u]);
    assert CyclePath(g, q + [u]);
  }

  /** A new edge closes a cycle of an acyclic graph if and only if its end reaches its start. */
  lemma {:induction false} NewEdgeExactly(g: Graph, h: Graph, t: Id, p: Id)
    requires AddsEdge(g, h, t, p) && !Cyclic(g)
    ensures Cyclic(h) <==> Reaches(g, p, t)
  {
    if Cyclic(h) {
      var c :| CyclePath(h, c);
      WalkSplits(g, h, t, p, c);
      if Leads(g, c[0], c[0]) {
        LeadsBackIsCycle(g, c[0]);
      } else {
        var q :| JoinsUp(g, q, c[0], t);
        ReachesThrough(g, p, c[0], q);
      }
    }
    if Reaches(g, p, t) {
      var q :| JoinsUp(g, q, p, t);
      assert Path(h, q) && Path(h, [t]) && Edge(h, t, p);
      PathsConcat(h, [t], q);
      assert CyclePath(h, [t] + q);
    }
  }

  lemma {:induction false} PathPrefix(g: Graph, path: seq<Id>, u: Id)
    requires Path(g, path + [u])
    ensures Path(g, path)
  {
    forall i, j | 0 <= i < j < |path| && j == i + 1
      ensures Edge(g, path[i], path[j])
    {
      assert (path + [u])[i] == path[i] && (path + [u])[j] == path[j];
    }
  }

  /** Appending a node whose successors are all present keeps a list settled. */
  lemma {:induction false} SettledExtends(g: Graph, done: seq<Id>, u: Id)
    requires Settled(g, done)
    requires forall v :: Edge(g, u, v) && v in g ==> v in done
    ensures Settled(g, done + [u])
  {
    forall i, v | 0 <= i < |done + [u]| && Edge(g, (done + [u])[i], v) && v in g
      ensures v in (done + [u])[..i]
    {
      assert (done + [u])[..i] == done[..i];
      if i < |done| {
        assert Edge(g, done[i], v);
      } else {
        assert done[..i] == done;
      }
    }
  }

  /** Every id the search can meet. */
  function Universe(g: Graph): set<Id> {
    g.Keys + set u, v | u in g && v in g[u] :: v
  }

  // ------------------------------------------------------- three-colour search

  datatype Color = White | Gray | Black

  datatype Verdict = Acyclic | CycleFound(path: seq<Id>)

  type Colors = map<Id, Color>

  function ColorOf(colors: Colors, u: Id): Color {
    if u in colors then colors[u] else White
  }

  function Seen(colors: Colors): set<Id> {
    set u | u in colors && colors[u] != White
  }

  /** Grey nodes are exactly the current path; black nodes are finished in a settled order. */
  ghost predicate ColorInv(g: Graph, colors: Colors, stack: seq<Id>, done: seq<Id>) {
    && colors.Keys <= Universe(g)
    && Path(g, stack)
    && (forall u :: ColorOf(colors, u) == Gray <==> u in stack)
    && (forall u :: u in done ==> ColorOf(colors, u) == Black)
    && (forall u :: ColorOf(colors, u) == Black && u in g ==> u in done)
    && Settled(g, done)
  }

  /** Colours only get darker. */
  ghost predicate Darker(before: Colors, after: Colors) {
    && Seen(before) <= Seen(after)
    && forall u :: ColorOf(before, u) == Black ==> ColorOf(after, u) == Black
  }

  lemma {:induction false} Push(g: Graph, colors: Colors, stack: seq<Id>, done: seq<Id>, u: Id)
    requires ColorInv(g, colors, stack, done)
    requires u in Universe(g) && ColorOf(colors, u) == White
    requires stack == [] || Edge(g, stack[|stack| - 1], u)
    ensures ColorInv(g, colors[u := Gray], stack + [u], done)
    ensures Darker(colors, colors[u := Gray]) && u in Seen(colors[u := Gray])
  {
    PathExtends(g, stack, u);
  }

  lemma {:induction false} Pop(g: Graph, colors: Colors, stack: seq<Id>, done: seq<Id>, u: Id)
    requires ColorInv(g, colors, stack + [u], done) && u !in stack
    requires forall v :: Edge(g, u, v) ==> ColorOf(colors, v) == Black
    ensures ColorInv(g, colors[u := Black], stack, done + [u])
  {
    var colors' := colors[u := Black];
    SettledExtends(g, done, u);
    assert Path(g, stack) by { PathPrefix(g, stack, u); }
    forall w
      ensures ColorOf(colors', w) == Gray <==> w in stack
      ensures w in done + [u] ==> ColorOf(colors', w) == Black
      ensures ColorOf(colors', w) == Black && w in g ==> w in done + [u]
    {
      assert w in stack + [u] <==> w in stack || w == u;
    }
  }

  /** What a search from one node leaves when it finds no cycle. */
  ghost predicate Searched(g: Graph, v: Id, colors0: Colors, colors: Colors, stack: seq<Id>, done: seq<Id>) {
    ColorInv(g, colors, stack, done) && Darker(colors0, colors) && ColorOf(colors, v) == Black
  }

  lemma {:induction false} DarkerYet(colors0: Colors, before: Colors, after: Colors, out: seq<Id>, j: nat)
    requires Darker(colors0, before) && Darker(before, after) && j < |out| && ColorOf(after, out[j]) == Black
    requires forall i :: 0 <= i < j ==> ColorOf(before, out[i]) == Black
    ensures Darker(colors0, after) && forall i :: 0 <= i <= j ==> ColorOf(after, out[i]) == Black
  {
  }

  lemma {:induction false} PopSearched(g: Graph, colors0: Colors, colors: Colors, stack: seq<Id>, done: seq<Id>, u: Id)
    requires ColorInv(g, colors, stack + [u], done) && u !in stack && Darker(colors0, colors)
    requires forall i :: 0 <= i < |Out(g, u)| ==> ColorOf(colors, Out(g, u)[i]) == Black
    ensures Searched(g, u, colors0, colors[u := Black], stack, done + [u])
  {
    Pop(g, colors, stack, done, u);
  }

  /** Looks at one successor of the node on top of the stack: a grey one closes a cycle, a
      white one is searched. */
  method Follow(g: Graph, v: Id, colors0: Colors, stack: seq<Id>, ghost done0: seq<Id>)
    returns (colors: Colors, verdict: Verdict, ghost done: seq<Id>)
    requires ColorInv(g, colors0, stack, done0) && v in Universe(g)
    requires stack == [] || Edge(g, stack[|stack| - 1], v)
    ensures verdict.Acyclic? ==> Searched(g, v, colors0, colors, stack, done)
    ensures verdict.CycleFound? ==> CyclePath(g, verdict.path)
    decreases Universe(g) - Seen(colors0), 1
  {
    colors, verdict, done := colors0, Acyclic, done0;
    if ColorOf(colors, v) == Gray {
      ClosedSuffixIsCycle(g, stack, v);
      verdict := CycleFound(stack[IndexOf(stack, v)..] + [v]);
    } else if ColorOf(colors, v) == White {
      colors, verdict, done := Dfs(g, v, colors, stack, done);
    }
  }

  method Dfs(g: Graph, u: Id, colors0: Colors, stack0: seq<Id>, ghost done0: seq<Id>)
    returns (colors: Colors, verdict: Verdict, ghost done: seq<Id>)
    requires ColorInv(g, colors0, stack0, done0)
    requires u in Universe(g) && ColorOf(colors0, u) == White
    requires stack0 == [] || Edge(g, stack0[|stack0| - 1], u)
    ensures verdict.Acyclic? ==> Searched(g, u, colors0, colors, stack0, done)
    ensures verdict.CycleFound? ==> CyclePath(g, verdict.path)
    decreases Universe(g) - Seen(colors0), 0
  {
    colors := colors0[u := Gray];
    done := done0;
    var stack := stack0 + [u];
    Push(g, colors0, stack0, done0, u);
    var out := Out(g, u);
    var j := 0;
    while j < |out|
      invariant 0 <= j <= |out|
      invariant ColorInv(g, colors, stack, done)
      invariant Darker(colors0, colors) && u in Seen(colors)
      invariant forall i :: 0 <= i < j ==> ColorOf(colors, out[i]) == Black
    {
      assert Edge(g, u, out[j]);
      ghost var before := colors;
      colors, verdict, done := Follow(g, out[j], colors, stack, done);
      if verdict.CycleFound? {
        return;
      }
      DarkerYet(colors0, before, colors, out, j);
      j := j + 1;
    }
    PopSearched(g, colors0, colors, stack0, done, u);
    colors := colors[u := Black];
    done := done + [u];
    verdict := Acyclic;
  }

  function AllWhite(keys: seq<Id>): Colors {
    map id | id in keys :: White
  }

  lemma {:induction false} AllWhiteInv(g: Graph, keys: seq<Id>)
    requires Enumerates(keys, g.Keys)
    ensures ColorInv(g, AllWhite(keys), [], [])
    ensures forall j :: 0 <= j < |keys| ==> keys[j] in Universe(g)
  {
  }

  lemma {:induction false} AllBlackIsAcyclic(g: Graph, keys: seq<Id>, colors: Colors, done: seq<Id>)
    requires Enumerates(keys, g.Keys) && ColorInv(g, colors, [], done)
    requires forall i :: 0 <= i < |keys| ==> ColorOf(colors, keys[i]) == Black
    ensures !Cyclic(g)
  {
    forall id | id in g
      ensures id in done
    {
      assert id in keys;
    }
    SettledIsAcyclic(g, done);
  }

  /** The check that runs after every change of the dependency graph: it reports a genuine
      cycle when there is one and passes exactly when there is none. */
  method ValidateNoCycles(g: Graph, keys: seq<Id>) returns (verdict: Verdict)
    requires Enumerates(keys, g.Keys)
    ensures verdict.CycleFound? <==> Cyclic(g)
    ensures verdict.CycleFound? ==> CyclePath(g, verdict.path)
  {
    var colors := AllWhite(keys);
    ghost var done: seq<Id> := [];
    AllWhiteInv(g, keys);
    var j := 0;
    while j < |keys|
      invariant 0 <= j <= |keys|
      invariant ColorInv(g, colors, [], done)
      invariant forall i :: 0 <= i < j ==> ColorOf(colors, keys[i]) == Black
    {
      colors, verdict, done := Follow(g, keys[j], colors, [], done);
      if verdict.CycleFound? {
        return;
      }
      j := j + 1;
    }
    AllBlackIsAcyclic(g, keys, colors, done);
    verdict := Acyclic;
  }

  // ------------------------------------------------------- topological order

  /** Visited nodes are finished, on the current path, or not nodes at all; on an acyclic
      graph the finished list is settled. */
  ghost predicate VisitInv(g: Graph, visited: set<Id>, order: seq<Id>, path: seq<Id>) {
    && visited <= Universe(g)
    && Path(g, path)
    && Distinct(order)
    && (forall u :: u in g ==> (u in visited <==> u in order || u in path))
    && (forall u :: u in order ==> u in g && u !in path)
    && (forall u :: u in path ==> u in visited)
    && (!Cyclic(g) ==> Settled(g, order))
  }

  method Visit(g: Graph, id: Id, visited0: set<Id>, order0: seq<Id>, ghost path: seq<Id>)
    returns (visited: set<Id>, order: seq<Id>)
    requires VisitInv(g, visited0, order0, path)
    requires id in Universe(g)
    requires path == [] || Edge(g, path[|path| - 1], id)
    ensures VisitInv(g, visited, order, path)
    ensures visited0 <= visited && id in visited
    decreases Universe(g) - visited0
  {
    visited, order := visited0, order0;
    if id in visited {
      return;
    }
    visited := visited + {id};
    if id in g {
      var out := g[id];
      ghost var here := path + [id];
      PathExtends(g, path, id);
      var j := 0;
      while j < |out|
        invariant 0 <= j <= |out|
        invariant VisitInv(g, visited, order, here)
        invariant visited0 + {id} <= visited
        invariant forall i :: 0 <= i < j ==> out[i] in visited
      {
        assert Edge(g, id, out[j]);
        visited, order := Visit(g, out[j], visited, order, here);
        j := j + 1;
      }
      if !Cyclic(g) {
        forall v | Edge(g, id, v) && v in g
          ensures v in order
        {
          if v in here {
            ClosedSuffixIsCycle(g, here, v);
          }
        }
        SettledExtends(g, order, id);
      }
      assert id in here;
      order := order + [id];
    }
  }

  /** Depth-first finishing order. Each node is listed exactly once on every graph; the order
      is topological exactly when the graph has no cycle. */
  method TopologicalOrder(g: Graph, keys: seq<Id>) returns (order: seq<Id>)
    requires Enumerates(keys, g.Keys)
    ensures Enumerates(order, g.Keys)
    ensures Settled(g, order) <==> !Cyclic(g)
  {
    var visited: set<Id> := {};
    order := [];
    var j := 0;
    while j < |keys|
      invariant 0 <= j <= |keys|
      invariant VisitInv(g, visited, order, [])
      invariant forall i :: 0 <= i < j ==> keys[i] in visited
    {
      visited, order := Visit(g, keys[j], visited, order, []);
      j := j + 1;
    }
    forall id
      ensures id in order <==> id in g
    {
      assert id in g ==> id in keys;
    }
    if Settled(g, order) {
      SettledIsAcyclic(g, order);
    }
  }
}
