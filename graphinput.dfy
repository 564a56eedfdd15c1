/** What `setGraph` (Dijkstras.js:47-80) makes of its argument: the checks
    it throws on and the adjacency it writes into `this.graph`, as functions
    of the graph before and the argument. The class in dijkstra.dfy runs the
    same nested loops in place and is proved to agree with `Loaded`. */
module GraphInput {
  import opened Wrappers
  import opened JsInput
  import opened Adjacency

  /** `this.graph`: node names mapped to their adjacency. */
  type Graph = map<string, Adj>

  /** One error per `throw` in `setGraph`; indices are positions in the
      arrays, as the messages report them. */
  datatype GraphError =
    | NotAnObject                       // Dijkstras.js:50-52
    | GraphEmpty                        // Dijkstras.js:54-56
    | BadNode(index: nat)               // Dijkstras.js:61-63
    | BadVertex(index: nat, v: nat)     // Dijkstras.js:71-73

  /** An array of exactly two values: what both shape checks ask for. */
  predicate IsPair(v: Value) {
    v.Array? && |v.items| == 2
  }

  /** The values `vertices[v]` that `for (var v in vertices)` visits: the
      elements of an array, the one-character strings of a string, nothing
      for a number. */
  function Listed(v: Value): (r: seq<Value>)
    ensures v.Array? ==> r == v.items
    ensures v.Number? ==> r == []
    ensures v.Str? ==> |r| == |v.s| && forall k :: 0 <= k < |r| ==> !IsPair(r[k])
  {
    match v
    case Array(items) => items
    case Number(_) => []
    case Str(s) => seq(|s|, k requires 0 <= k < |s| => Str([s[k]]))
  }

  /** A node entry that passes every check: a pair whose second value lists
      only pairs. */
  predicate GoodNode(v: Value) {
    IsPair(v) && forall w :: w in Listed(v.items[1]) ==> IsPair(w)
  }

  /** The inner loop (Dijkstras.js:69-78) from vertex `j` on, writing into
      `adj`: the adjacency it leaves and the index of the vertex that fails
      the check, if one does. */
  function LoadVerticesFrom(adj: Adj, vs: seq<Value>, j: nat): (r: (Adj, Option<nat>))
    requires j <= |vs|
    decreases |vs| - j
  {
    if j == |vs| then (adj, None)
    else if !IsPair(vs[j]) then (adj, Some(j))
    else LoadVerticesFrom(Put(adj, Key(vs[j].items[0]), vs[j].items[1]), vs, j + 1)
  }

  /** The outer loop (Dijkstras.js:58-79) from entry `i` on, writing into
      `g`: each entry's name gets a fresh adjacency, filled by the inner
      loop, before any of its vertices is checked. */
  function LoadNodesFrom(g: Graph, nodes: seq<Value>, i: nat): (r: (Graph, Option<GraphError>))
    requires i <= |nodes|
    decreases |nodes| - i
  {
    if i == |nodes| then (g, None)
    else if !IsPair(nodes[i]) then (g, Some(BadNode(i)))
    else
      var name := Key(nodes[i].items[0]);
      var vs := LoadVerticesFrom([], Listed(nodes[i].items[1]), 0);
      var g1 := g[name := vs.0];
      if vs.1.Some? then (g1, Some(BadVertex(i, vs.1.value)))
      else LoadNodesFrom(g1, nodes, i + 1)
  }

  /** `setGraph(input)` on a Dijkstras whose graph is `g`: the graph after
      the call and the error it throws, if any. */
  function Loaded(g: Graph, input: Value): (r: (Graph, Option<GraphError>))
  {
    if !IsObject(input) then (g, Some(NotAnObject))
    else if |input.items| < 1 then (g, Some(GraphEmpty))
    else LoadNodesFrom(g, input.items, 0)
  }

  // ---------------------------------------------------------- vertices

  /** The inner loop fails exactly when some vertex from `j` on is not a
      pair, and then at the first such vertex. */
  lemma {:induction false} VerticesError(adj: Adj, vs: seq<Value>, j: nat)
    requires j <= |vs|
    ensures var r := LoadVerticesFrom(adj, vs, j);
      && (r.1.None? <==> forall k :: j <= k < |vs| ==> IsPair(vs[k]))
      && (r.1.Some? ==> j <= r.1.value < |vs| && !IsPair(vs[r.1.value])
                        && forall k :: j <= k < r.1.value ==> IsPair(vs[k]))
    decreases |vs| - j
  {
    if j < |vs| && IsPair(vs[j]) {
      VerticesError(Put(adj, Key(vs[j].items[0]), vs[j].items[1]), vs, j + 1);
    }
  }

  /** The inner loop keeps every name at most once. */
  lemma {:induction false} VerticesUnique(adj: Adj, vs: seq<Value>, j: nat)
    requires j <= |vs| && Unique(adj)
    ensures Unique(LoadVerticesFrom(adj, vs, j).0)
    decreases |vs| - j
  {
    if j < |vs| && IsPair(vs[j]) {
      PutUnique(adj, Key(vs[j].items[0]), vs[j].items[1]);
      VerticesUnique(Put(adj, Key(vs[j].items[0]), vs[j].items[1]), vs, j + 1);
    }
  }

  /** The name a vertex that is a pair writes (nothing else is written). */
  function VertexName(w: Value): string {
    if IsPair(w) then Key(w.items[0]) else ""
  }

  /** The last write wins: when every vertex from `j` on is a pair, a name
      reads the cost of the last vertex from `j` on that names it. */
  lemma {:induction false} VerticesLast(adj: Adj, vs: seq<Value>, j: nat)
    requires j <= |vs| && forall k :: j <= k < |vs| ==> IsPair(vs[k])
    ensures var a := LoadVerticesFrom(adj, vs, j).0;
      forall k :: j <= k < |vs| && (forall k' :: k < k' < |vs| ==> VertexName(vs[k']) != VertexName(vs[k])) ==>
        Lookup(a, VertexName(vs[k])) == Some(vs[k].items[1])
    decreases |vs| - j
  {
    if j < |vs| {
      var adj1 := Put(adj, VertexName(vs[j]), vs[j].items[1]);
      assert LoadVerticesFrom(adj, vs, j) == LoadVerticesFrom(adj1, vs, j + 1);
      VerticesLast(adj1, vs, j + 1);
      var a := LoadVerticesFrom(adj, vs, j).0;
      forall k | j <= k < |vs| && (forall k' :: k < k' < |vs| ==> VertexName(vs[k']) != VertexName(vs[k]))
        ensures Lookup(a, VertexName(vs[k])) == Some(vs[k].items[1])
      {
        if k == j {
          PutFacts(adj, VertexName(vs[j]), vs[j].items[1]);
          VerticesUntouched(adj1, vs, j + 1, VertexName(vs[j]));
        }
      }
    }
  }

  /** A name no vertex from `j` on names reads what it read before. */
  lemma {:induction false} VerticesUntouched(adj: Adj, vs: seq<Value>, j: nat, n: string)
    requires j <= |vs| && forall k :: j <= k < |vs| ==> IsPair(vs[k]) && VertexName(vs[k]) != n
    ensures Lookup(LoadVerticesFrom(adj, vs, j).0, n) == Lookup(adj, n)
    decreases |vs| - j
  {
    if j < |vs| {
      var adj1 := Put(adj, VertexName(vs[j]), vs[j].items[1]);
      PutFacts(adj, VertexName(vs[j]), vs[j].items[1]);
      VerticesUntouched(adj1, vs, j + 1, n);
    }
  }

  // ------------------------------------------------------------- nodes

  /** `setGraph` throws nothing exactly when its argument is a non-empty
      array of good node entries. */
  lemma LoadedOk(g: Graph, input: Value)
    ensures Loaded(g, input).1.None? <==>
      input.Array? && |input.items| >= 1 && forall i :: 0 <= i < |input.items| ==> GoodNode(input.items[i])
  {
    if input.Array? && |input.items| >= 1 {
      NodesError(g, input.items, 0);
    }
  }

  /** The outer loop fails exactly when some entry from `i` on is not a good
      node, and then with the error of the first such entry. */
  lemma {:induction false} NodesError(g: Graph, nodes: seq<Value>, i: nat)
    requires i <= |nodes|
    ensures var r := LoadNodesFrom(g, nodes, i);
      && (r.1.None? <==> forall k :: i <= k < |nodes| ==> GoodNode(nodes[k]))
      && (r.1.Some? ==> FirstBad(nodes, i, r.1.value))
    decreases |nodes| - i
  {
    if i < |nodes| && IsPair(nodes[i]) {
      var name := Key(nodes[i].items[0]);
      var vs := Listed(nodes[i].items[1]);
      VerticesError([], vs, 0);
      var l := LoadVerticesFrom([], vs, 0);
      if l.1.Some? {
        assert vs[l.1.value] in vs;
      } else {
        NodesError(g[name := l.0], nodes, i + 1);
        forall w | w in vs ensures IsPair(w) {
          var k :| 0 <= k < |vs| && vs[k] == w;
        }
      }
    }
  }

  /** `e` is the error of the first bad entry from `i` on: every entry before
      it is good; a `BadNode` entry is not a pair; a `BadVertex` entry is a
      pair whose vertex `v` is the first that is not a pair. */
  ghost predicate FirstBad(nodes: seq<Value>, i: nat, e: GraphError) {
    match e
    case BadNode(k) =>
      i <= k < |nodes| && !IsPair(nodes[k]) && forall m :: i <= m < k ==> GoodNode(nodes[m])
    case BadVertex(k, v) =>
      && i <= k < |nodes| && IsPair(nodes[k]) && (forall m :: i <= m < k ==> GoodNode(nodes[m]))
      && var vs := Listed(nodes[k].items[1]);
         v < |vs| && !IsPair(vs[v]) && forall m :: 0 <= m < v ==> IsPair(vs[m])
    case _ => false
  }

  /** Running the outer loop on the first `k` entries and going on from
      there is running it on all of them. */
  lemma {:induction false} NodesPrefix(g: Graph, nodes: seq<Value>, i: nat, k: nat)
    requires i <= k <= |nodes| && LoadNodesFrom(g, nodes[..k], i).1.None?
    ensures LoadNodesFrom(g, nodes, i) == LoadNodesFrom(LoadNodesFrom(g, nodes[..k], i).0, nodes, k)
    decreases k - i
  {
    if i < k {
      assert nodes[..k][i] == nodes[i];
      var name := Key(nodes[i].items[0]);
      var l := LoadVerticesFrom([], Listed(nodes[i].items[1]), 0);
      NodesPrefix(g[name := l.0], nodes, i + 1, k);
    }
  }

  /** Entries before the failing one stay written: when `setGraph` throws
      at entry `k`, the graph is what the entries before `k` made of it,
      plus, for a bad vertex `v`, entry `k`'s name bound to the adjacency of
      its vertices before `v`. */
  lemma LoadedErrorKeeps(g: Graph, input: Value)
    requires input.Array? && Loaded(g, input).1.Some?
    requires Loaded(g, input).1.value.BadNode? || Loaded(g, input).1.value.BadVertex?
    ensures var e := Loaded(g, input).1.value; var nodes := input.items;
      && FirstBad(nodes, 0, e)
      && LoadNodesFrom(g, nodes[..e.index], 0).1.None?
      && var before := LoadNodesFrom(g, nodes[..e.index], 0).0;
         && (e.BadNode? ==> Loaded(g, input).0 == before)
         && (e.BadVertex? ==>
               var vs := Listed(nodes[e.index].items[1]);
               Loaded(g, input).0 == before[NodeName(nodes[e.index]) := LoadVerticesFrom([], vs[..e.v], 0).0])
  {
    var nodes := input.items;
    var e := Loaded(g, input).1.value;
    NodesError(g, nodes, 0);
    var k := e.index;
    NodesError(g, nodes[..k], 0);
    assert forall m :: 0 <= m < k ==> nodes[..k][m] == nodes[m];
    NodesPrefix(g, nodes, 0, k);
    if e.BadVertex? {
      var vs := Listed(nodes[k].items[1]);
      VerticesError([], vs[..e.v], 0);
      assert forall m :: 0 <= m < e.v ==> vs[..e.v][m] == vs[m];
      VerticesPrefix([], vs, 0, e.v);
    }
  }

  /** Running the inner loop on the first `k` vertices and going on from
      there is running it on all of them. */
  lemma {:induction false} VerticesPrefix(adj: Adj, vs: seq<Value>, j: nat, k: nat)
    requires j <= k <= |vs| && LoadVerticesFrom(adj, vs[..k], j).1.None?
    ensures LoadVerticesFrom(adj, vs, j) == LoadVerticesFrom(LoadVerticesFrom(adj, vs[..k], j).0, vs, k)
    decreases k - j
  {
    if j < k {
      assert vs[..k][j] == vs[j];
      VerticesPrefix(Put(adj, Key(vs[j].items[0]), vs[j].items[1]), vs, j + 1, k);
    }
  }

  /** The name an entry that is a pair writes. */
  function NodeName(v: Value): string {
    if IsPair(v) then Key(v.items[0]) else ""
  }

  /** The adjacency an entry that is a pair writes. */
  function NodeAdj(v: Value): Adj {
    if IsPair(v) then LoadVerticesFrom([], Listed(v.items[1]), 0).0 else []
  }

  /** Names written from entry `i` on. */
  ghost function NamesFrom(nodes: seq<Value>, i: nat): set<string> {
    set k | i <= k < |nodes| :: NodeName(nodes[k])
  }

  /** On success the graph's names are the old ones and every entry's
      name. */
  lemma {:induction false} NodesKeys(g: Graph, nodes: seq<Value>, i: nat)
    requires i <= |nodes| && forall k :: i <= k < |nodes| ==> GoodNode(nodes[k])
    ensures LoadNodesFrom(g, nodes, i).0.Keys == g.Keys + NamesFrom(nodes, i)
    decreases |nodes| - i
  {
    if i < |nodes| {
      var g1 := g[NodeName(nodes[i]) := NodeAdj(nodes[i])];
      OneNode(g, nodes, i);
      NodesKeys(g1, nodes, i + 1);
      assert NamesFrom(nodes, i) == {NodeName(nodes[i])} + NamesFrom(nodes, i + 1);
    }
  }

  /** A good entry `i` binds its name to its adjacency and the loop goes on. */
  lemma OneNode(g: Graph, nodes: seq<Value>, i: nat)
    requires i < |nodes| && GoodNode(nodes[i])
    ensures LoadNodesFrom(g, nodes, i) == LoadNodesFrom(g[NodeName(nodes[i]) := NodeAdj(nodes[i])], nodes, i + 1)
  {
    var vs := Listed(nodes[i].items[1]);
    VerticesError([], vs, 0);
    forall k | 0 <= k < |vs| ensures IsPair(vs[k]) {
      assert vs[k] in vs;
    }
  }

  /** A later entry with the same name replaces the whole adjacency: on
      success a name is bound to what the last entry with that name wrote. */
  lemma {:induction false} NodesLast(g: Graph, nodes: seq<Value>, i: nat)
    requires i <= |nodes| && forall k :: i <= k < |nodes| ==> GoodNode(nodes[k])
    ensures var r := LoadNodesFrom(g, nodes, i).0;
      forall k :: i <= k < |nodes| && (forall k' :: k < k' < |nodes| ==> NodeName(nodes[k']) != NodeName(nodes[k])) ==>
        NodeName(nodes[k]) in r && r[NodeName(nodes[k])] == NodeAdj(nodes[k])
    decreases |nodes| - i
  {
    if i < |nodes| {
      var g1 := g[NodeName(nodes[i]) := NodeAdj(nodes[i])];
      OneNode(g, nodes, i);
      NodesLast(g1, nodes, i + 1);
      var r := LoadNodesFrom(g, nodes, i).0;
      forall k | i <= k < |nodes| && (forall k' :: k < k' < |nodes| ==> NodeName(nodes[k']) != NodeName(nodes[k]))
        ensures NodeName(nodes[k]) in r && r[NodeName(nodes[k])] == NodeAdj(nodes[k])
      {
        if k == i {
          NodesUntouched(g1, nodes, i + 1, NodeName(nodes[i]));
        }
      }
    }
  }

  /** A name no entry from `i` on has keeps its old adjacency. */
  lemma {:induction false} NodesUntouched(g: Graph, nodes: seq<Value>, i: nat, n: string)
    requires i <= |nodes| && n in g
    requires forall k :: i <= k < |nodes| ==> GoodNode(nodes[k]) && NodeName(nodes[k]) != n
    ensures var r := LoadNodesFrom(g, nodes, i).0; n in r && r[n] == g[n]
    decreases |nodes| - i
  {
    if i < |nodes| {
      var g1 := g[NodeName(nodes[i]) := NodeAdj(nodes[i])];
      assert n in g1 && g1[n] == g[n];
      OneNode(g, nodes, i);
      NodesUntouched(g1, nodes, i + 1, n);
    }
  }
}
