/** The `Dijkstras` class of Dijkstras.js:24-140: `setGraph` fills `graph`
    from its argument in two nested loops, and `getPath` runs the relaxation
    loop over a fresh `MinHeap` and rebuilds the path from the `previous`
    links, which it keeps from one call to the next. */
module Dijkstra {
  import opened Wrappers
  import opened JsInput
  import opened Adjacency
  import opened GraphInput
  import opened HeapModel
  import Heap
  import HeapFacts
  import HeapShift
  import Seqs

  /** One error per `throw` in `getPath` (Dijkstras.js:92-97), the TypeError
      a negative depth raises inside the heap, and the three ways the model
      stops where the JavaScript would run forever: a walk in the heap that
      goes round, a `previous` walk that goes round, and running out of
      `fuel` in the main loop. */
  datatype PathError =
    | SourceMissing
    | TargetMissing
    | HeapTypeError
    | HeapCycle
    | PathCycle
    | FuelExhausted

  /** `this.previous`: a name mapped to `null` or to the name it was reached
      from. */
  type Links = map<string, Option<string>>

  /** `this.graph[u]`, an empty adjacency for a name without one (`for…in`
      over `undefined` visits nothing). */
  function Neighbours(g: Graph, u: string): Adj {
    if u in g then g[u] else []
  }

  /** Every cost in the graph is a number. */
  ghost predicate NumericCosts(g: Graph) {
    forall u, n | u in g && Lookup(g[u], n).Some? :: Lookup(g[u], n).value.Number?
  }

  /** `distance + cost`, with `Infinity + cost == Infinity`. */
  function Plus(d: Dist, c: nat): (r: Dist)
    ensures r.Inf? <==> d.Inf?
    ensures d.Fin? ==> r.n == d.n + c
  {
    match d
    case Inf => Inf
    case Fin(n) => Fin(n + c)
  }

  /** `previous[u] != null` fails: `u` has no link or a `null` one. */
  ghost predicate Stops(previous: Links, u: string) {
    !(u in previous && previous[u].Some?)
  }

  /** `walk` follows the `previous` links. */
  ghost predicate BackChain(previous: Links, walk: seq<string>) {
    forall i :: 0 <= i < |walk| - 1 ==> walk[i] in previous && previous[walk[i]] == Some(walk[i + 1])
  }

  /** `p` is a path from `source` to `target` as `getPath` reports it: it
      ends at `target`, leaves `source` out, and each of its names was
      reached from the one before it (from `source` for the first) along an
      edge of the graph, as `previous` records. */
  ghost predicate PathTo(g: Graph, previous: Links, source: string, target: string, p: seq<string>) {
    && |p| > 0 && p[|p| - 1] == target && source !in p
    && forall i :: 0 <= i < |p| ==>
         var u := ([source] + p)[i];
         p[i] in previous && previous[p[i]] == Some(u) && p[i] in Names(Neighbours(g, u))
  }

  /** What holds of the queue and `previous` throughout a query from
      `source`: `source` is queued at distance 0 with a `null` link, and
      every other queued name has a link to a queued name it is a neighbour
      of. */
  ghost predicate Linked(g: Graph, previous: Links, nodes: map<Name, Entry>, source: string) {
    && Distance(nodes, source) == Fin(0)
    && source in previous && previous[source].None?
    && forall v | Distance(nodes, v).Fin? && v != source ::
         v in previous && previous[v].Some? && Distance(nodes, previous[v].value).Fin?
         && v in Names(Neighbours(g, previous[v].value))
  }

  /** No distance went up from `before` to `after`. */
  ghost predicate NotRaised(before: map<Name, Entry>, after: map<Name, Entry>) {
    forall m :: !Distance(before, m).Below(Distance(after, m))
  }

  lemma NotRaisedTrans(a: map<Name, Entry>, b: map<Name, Entry>, c: map<Name, Entry>)
    requires NotRaised(a, b) && NotRaised(b, c)
    ensures NotRaised(a, c)
  {
    forall m ensures !Distance(a, m).Below(Distance(c, m)) {
      assert !Distance(a, m).Below(Distance(b, m)) && !Distance(b, m).Below(Distance(c, m));
    }
  }

  /** Every name of a `previous` walk that starts at a queued name is
      queued, as far as `k`. */
  lemma {:induction false} WalkQueued(g: Graph, previous: Links, nodes: map<Name, Entry>, source: string,
                                      walk: seq<string>, k: nat)
    requires Linked(g, previous, nodes, source) && BackChain(previous, walk)
    requires k < |walk| && Distance(nodes, walk[0]).Fin?
    ensures forall i :: 0 <= i <= k ==> Distance(nodes, walk[i]).Fin? && (i < |walk| - 1 ==> walk[i] != source)
  {
    if k > 0 {
      WalkQueued(g, previous, nodes, source, walk, k - 1);
      assert previous[walk[k - 1]] == Some(walk[k]);
    }
    if k < |walk| - 1 {
      assert previous[walk[k]] == Some(walk[k + 1]);
    }
  }

  /** Setting `v`'s distance to `a`, reached from the queued `u` along an
      edge with `a` no smaller than `u`'s distance and below `v`'s, and
      linking `v` to `u`, keeps a query's links and raises no distance. */
  lemma LinkedRelaxed(g: Graph, previous: Links, nodes: map<Name, Entry>, nodes2: map<Name, Entry>,
                      source: string, u: string, v: string, a: Dist)
    requires Linked(g, previous, nodes, source)
    requires Distance(nodes, u).Fin? && v in Names(Neighbours(g, u))
    requires a.Below(Distance(nodes, v)) && !a.Below(Distance(nodes, u))
    requires Distance(nodes2, v) == a && forall m | m != v :: Distance(nodes2, m) == Distance(nodes, m)
    ensures Linked(g, previous[v := Some(u)], nodes2, source) && NotRaised(nodes, nodes2)
  {
    assert v != u;
    assert v != source by {
      assert Distance(nodes, source) == Fin(0);
    }
    forall m ensures !Distance(nodes, m).Below(Distance(nodes2, m)) {
      if m == v {
      }
    }
    var previous2 := previous[v := Some(u)];
    forall w | Distance(nodes2, w).Fin? && w != source
      ensures w in previous2 && previous2[w].Some? && Distance(nodes2, previous2[w].value).Fin?
      ensures w in Names(Neighbours(g, previous2[w].value))
    {
      if w != v {
        assert Distance(nodes2, w) == Distance(nodes, w);
        var p := previous[w].value;
        if p != v {
          assert Distance(nodes2, p) == Distance(nodes, p);
        }
      }
    }
  }

  /** A `previous` walk from a queued name that stops ends at `source`,
      meets it nowhere before, and follows edges backwards. */
  lemma WalkEndsAtSource(g: Graph, previous: Links, nodes: map<Name, Entry>, source: string, walk: seq<string>)
    requires Linked(g, previous, nodes, source) && BackChain(previous, walk)
    requires |walk| > 0 && Distance(nodes, walk[0]).Fin? && Stops(previous, walk[|walk| - 1])
    ensures walk[|walk| - 1] == source
    ensures forall i :: 0 <= i < |walk| - 1 ==> walk[i] != source && walk[i] in Names(Neighbours(g, walk[i + 1]))
  {
    WalkQueued(g, previous, nodes, source, walk, |walk| - 1);
    forall i | 0 <= i < |walk| - 1 ensures walk[i] in Names(Neighbours(g, walk[i + 1])) {
      assert previous[walk[i]] == Some(walk[i + 1]);
    }
  }

  /** The reversed walk without its last name is a path from `source`. */
  lemma WalkIsPath(g: Graph, previous: Links, nodes: map<Name, Entry>, source: string, target: string,
                   walk: seq<string>, p: seq<string>)
    requires Linked(g, previous, nodes, source) && BackChain(previous, walk)
    requires |walk| > 1 && walk[0] == target && Distance(nodes, target).Fin? && Stops(previous, walk[|walk| - 1])
    requires |p| == |walk| - 1 && forall i :: 0 <= i < |p| ==> p[i] == walk[|walk| - 2 - i]
    ensures PathTo(g, previous, source, target, p)
  {
    WalkEndsAtSource(g, previous, nodes, source, walk);
    ReversedSteps(g, previous, source, walk, p);
    assert source !in p by {
      forall i | 0 <= i < |p| ensures p[i] != source {
        assert p[i] == walk[|walk| - 2 - i];
      }
    }
  }

  /** Read backwards, a walk that ends at `source` and follows edges
      backwards is a run of edges out of `source`. */
  lemma ReversedSteps(g: Graph, previous: Links, source: string, walk: seq<string>, p: seq<string>)
    requires BackChain(previous, walk) && |walk| > 1 && walk[|walk| - 1] == source
    requires forall i :: 0 <= i < |walk| - 1 ==> walk[i] in Names(Neighbours(g, walk[i + 1]))
    requires |p| == |walk| - 1 && forall i :: 0 <= i < |p| ==> p[i] == walk[|walk| - 2 - i]
    ensures forall i :: 0 <= i < |p| ==>
      var u := ([source] + p)[i];
      p[i] in previous && previous[p[i]] == Some(u) && p[i] in Names(Neighbours(g, u))
  {
    forall i | 0 <= i < |p|
      ensures var u := ([source] + p)[i];
        p[i] in previous && previous[p[i]] == Some(u) && p[i] in Names(Neighbours(g, u))
    {
      var n := |walk| - 2 - i;
      assert p[i] == walk[n];
      assert ([source] + p)[i] == walk[n + 1];
    }
  }

  class Dijkstras {
    var graph: Graph
    var previous: Links
    /** The heap of the latest query; `null` before the first. */
    var queue: Heap.MinHeap?

    /** `new Dijkstras()` (Dijkstras.js:26-31). */
    constructor ()
      ensures graph == map[] && previous == map[] && queue == null
    {
      graph := map[];
      previous := map[];
      queue := null;
    }

    /** `setGraph(input)` (Dijkstras.js:47-80): the checks throw at the first
        bad entry, and what was written before it stays. */
    method SetGraph(input: Value) returns (err: Option<GraphError>)
      modifies this
      ensures (graph, err) == Loaded(old(graph), input)
      ensures previous == old(previous) && queue == old(queue)
    {
      if !IsObject(input) {
        return Some(NotAnObject);
      }
      if |input.items| < 1 {
        return Some(GraphEmpty);
      }
      var nodes := input.items;
      var index := 0;
      while index < |nodes|
        invariant index <= |nodes|
        invariant LoadNodesFrom(graph, nodes, index) == LoadNodesFrom(old(graph), nodes, 0)
        invariant previous == old(previous) && queue == old(queue)
      {
        var node := nodes[index];
        if !IsPair(node) {
          return Some(BadNode(index));
        }
        var nodeName := Key(node.items[0]);
        var vertices := Listed(node.items[1]);
        ghost var g0 := graph;
        graph := graph[nodeName := []];
        var v := 0;
        while v < |vertices|
          invariant v <= |vertices| && nodeName in graph && graph == g0[nodeName := graph[nodeName]]
          invariant LoadVerticesFrom(graph[nodeName], vertices, v) == LoadVerticesFrom([], vertices, 0)
          invariant previous == old(previous) && queue == old(queue)
        {
          var vertex := vertices[v];
          if !IsPair(vertex) {
            return Some(BadVertex(index, v));
          }
          graph := graph[nodeName := Put(graph[nodeName], Key(vertex.items[0]), vertex.items[1])];
          v := v + 1;
        }
        index := index + 1;
      }
      return None;
    }

    /** The rebuild at Dijkstras.js:114-119: from `target`, put each name in
        front of the path and step to its `previous` link, until a name has
        none. `walk` is the names visited, `target` first. The JavaScript loop never ends
        when the links go round; once it has taken as many steps as
        `previous` has names, some name has been visited twice, and the
        method stops there with `PathCycle`. */
    method Rebuild(target: string) returns (r: Result<seq<string>, PathError>, walk: seq<string>)
      ensures |walk| > 0 && walk[0] == target && BackChain(previous, walk)
      ensures r.Success? ==>
        && Stops(previous, walk[|walk| - 1])
        && |r.value| == |walk| - 1 && forall i :: 0 <= i < |r.value| ==> r.value[i] == walk[|walk| - 2 - i]
      ensures r.Failure? ==> r.error == PathCycle && !Seqs.Distinct(walk)
    {
      var path: seq<string> := [];
      var u := target;
      walk := [target];
      var bound := |previous|;
      var steps := 0;
      while u in previous && previous[u].Some?
        invariant steps <= bound
        invariant |walk| == steps + 1 && walk[0] == target && walk[steps] == u && BackChain(previous, walk)
        invariant |path| == steps && forall i :: 0 <= i < steps ==> path[i] == walk[steps - 1 - i]
        invariant forall i :: 0 <= i < steps ==> walk[i] in previous
        decreases bound - steps
      {
        if steps == bound {
          forall k | 0 <= k < |walk| ensures walk[k] in previous.Keys {
          }
          Seqs.Pigeonhole(walk, previous.Keys);
          return Failure(PathCycle), walk;
        }
        path := [u] + path;
        u := previous[u].value;
        walk := walk + [u];
        steps := steps + 1;
      }
      return Success(path), walk;
    }

    /** The path to a queued `target` other than `source`, rebuilt from
        the links of the current query (Dijkstras.js:112-121). */
    method Report(q: Heap.MinHeap, target: string, ghost source: string) returns (r: Result<seq<string>, PathError>)
      requires Linked(graph, previous, q.nodes, source) && Distance(q.nodes, target).Fin? && target != source
      ensures r.Success? ==> PathTo(graph, previous, source, target, r.value)
      ensures r.Failure? ==> r.error == PathCycle
    {
      var walk;
      r, walk := Rebuild(target);
      if r.Success? {
        WalkIsPath(graph, previous, q.nodes, source, target, walk, r.value);
      }
    }

    /** One pass of the loop at Dijkstras.js:127-135: `v` is a neighbour of
        `u`; when the distance through `u` is strictly below `v`'s queue
        distance, `v` is updated to it and its `previous` link set to `u`;
        otherwise nothing changes. */
    method RelaxEdge(q: Heap.MinHeap, u: string, v: string, ghost source: string) returns (err: Option<PathError>)
      requires q.Valid() && NumericCosts(graph) && v in Names(Neighbours(graph, u))
      requires Linked(graph, previous, q.nodes, source) && Distance(q.nodes, u).Fin?
      modifies this, q, q.depthCache
      ensures graph == old(graph) && queue == old(queue)
      ensures err.None? ==>
        q.Valid() && Linked(graph, previous, q.nodes, source) && NotRaised(old(q.nodes), q.nodes)
      ensures var cost := Lookup(Neighbours(graph, u), v).value.n;
        var a := Plus(Distance(old(q.nodes), u), cost);
        && (a.Below(Distance(old(q.nodes), v)) && err.None? ==>
              && q.Valid() && previous == old(previous)[v := Some(u)]
              && Distance(q.nodes, v) == a
              && forall m | m != v :: Distance(q.nodes, m) == Distance(old(q.nodes), m))
        && (!a.Below(Distance(old(q.nodes), v)) ==>
              err.None? && previous == old(previous) && q.State() == old(q.State()))
        && (err.Some? ==> a.Below(Distance(old(q.nodes), v)) && (err.value == HeapTypeError || err.value == HeapCycle))
    {
      var cost := Lookup(Neighbours(graph, u), v).value.n;
      var uDistance := q.GetDistance(u);
      var nDistance := q.GetDistance(v);
      var aDistance := Plus(uDistance, cost);
      if aDistance.Below(nDistance) {
        ghost var h := q.State();
        var st := q.Update(v, aDistance.n);
        if st.TypeError? {
          return Some(HeapTypeError);
        }
        if st.Cycle? {
          return Some(HeapCycle);
        }
        HeapFacts.UpdateFacts(h, v, aDistance.n);
        LinkedRelaxed(graph, previous, h.nodes, q.nodes, source, u, v, aDistance);
        previous := previous[v := Some(u)];
      } else {
        forall m ensures !Distance(q.nodes, m).Below(Distance(q.nodes, m)) {
        }
      }
      return None;
    }

    /** The loop over the neighbours of `u` (Dijkstras.js:127-135), in
        `for…in` order. It keeps what a query keeps true of the queue and
        `previous`, and no queue distance goes up. */
    method RelaxAll(q: Heap.MinHeap, u: string, ghost source: string) returns (err: Option<PathError>)
      requires q.Valid() && NumericCosts(graph) && Distance(q.nodes, u).Fin?
      requires Linked(graph, previous, q.nodes, source)
      modifies this, q, q.depthCache
      ensures graph == old(graph) && queue == old(queue)
      ensures err.None? ==> q.Valid() && Linked(graph, previous, q.nodes, source) && NotRaised(old(q.nodes), q.nodes)
      ensures err.Some? ==> err.value == HeapTypeError || err.value == HeapCycle
    {
      var adj := Neighbours(graph, u);
      var order := ForIn(adj);
      ForInOrder(adj);
      ghost var nodes0 := q.nodes;
      var k := 0;
      while k < |order|
        invariant k <= |order|
        invariant graph == old(graph) && queue == old(queue)
        invariant q.Valid() && Linked(graph, previous, q.nodes, source) && NotRaised(nodes0, q.nodes)
        invariant Distance(q.nodes, u).Fin?
      {
        var neighbour := order[k];
        assert neighbour in Names(adj) by {
          assert neighbour in multiset(order);
        }
        ghost var before := q.nodes;
        err := RelaxEdge(q, u, neighbour, source);
        if err.Some? {
          return;
        }
        NotRaisedTrans(nodes0, before, q.nodes);
        k := k + 1;
      }
      return None;
    }

    /** One pass of the main loop of `getPath` (Dijkstras.js:104-137): take
        the nearest queued name; stop with nothing when the queue is empty,
        when the name is the empty string (falsy, so the `while` ends), or
        when the name is unreachable; stop with the rebuilt path when it is
        `target`; otherwise relax its edges. `None` means go round again. */
    method Visit(q: Heap.MinHeap, source: string, target: string) returns (outcome: Option<Result<seq<string>, PathError>>)
      requires q.Valid() && NumericCosts(graph) && Linked(graph, previous, q.nodes, source) && target != source
      modifies this, q, q.depthCache
      ensures graph == old(graph) && queue == old(queue)
      ensures outcome.None? ==>
        q.Valid() && Linked(graph, previous, q.nodes, source) && NotRaised(old(q.nodes), q.nodes)
      ensures outcome.Some? && outcome.value.Failure? ==>
        outcome.value.error in {HeapTypeError, HeapCycle, PathCycle}
      ensures outcome.Some? && outcome.value.Success? && outcome.value.value != [] ==>
        PathTo(graph, previous, source, target, outcome.value.value)
    {
      ghost var h := q.State();
      var u, st := q.Shift();
      if st.TypeError? {
        return Some(Failure(HeapTypeError));
      }
      if st.Cycle? {
        return Some(Failure(HeapCycle));
      }
      HeapShift.ShiftFacts(h);
      ghost var shifted := q.nodes;
      assert NotRaised(h.nodes, shifted);
      if u.None? || u.value == "" {
        return Some(Success([]));
      }
      if u.value == target {
        assert Distance(h.nodes, target).Fin?;
        var r := Report(q, target, source);
        return Some(r);
      }
      if q.GetDistance(u.value).Inf? {
        return Some(Success([]));
      }
      var err := RelaxAll(q, u.value, source);
      if err.Some? {
        return Some(Failure(err.value));
      }
      NotRaisedTrans(h.nodes, shifted, q.nodes);
      return None;
    }

    /** `getPath(source, target)` (Dijkstras.js:89-140), with at most `fuel`
        passes of the main loop. */
    method GetPath(source: string, target: string, fuel: nat) returns (r: Result<seq<string>, PathError>)
      requires NumericCosts(graph)
      modifies this
      ensures graph == old(graph)
      ensures r == Failure(SourceMissing) <==> source !in graph
      ensures r == Failure(TargetMissing) <==> source in graph && target !in graph
      ensures source in graph && source == target ==> r == Success([])
      ensures r.Success? && r.value != [] ==> PathTo(graph, previous, source, target, r.value)
    {
      if source !in graph {
        return Failure(SourceMissing);
      }
      if target !in graph {
        return Failure(TargetMissing);
      }
      if source == target {
        return Success([]);
      }
      var q := new Heap.MinHeap();
      queue := q;
      q.Add(source, 0);
      previous := previous[source := None];
      ghost var nodes0 := q.nodes;
      var steps := 0;
      while steps < fuel
        invariant fresh(q) && fresh(q.depthCache) && queue == q
        invariant graph == old(graph) && q.Valid()
        invariant Linked(graph, previous, q.nodes, source)
        invariant NotRaised(nodes0, q.nodes)
        decreases fuel - steps
      {
        ghost var before := q.nodes;
        var outcome := Visit(q, source, target);
        if outcome.Some? {
          return outcome.value;
        }
        NotRaisedTrans(nodes0, before, q.nodes);
        steps := steps + 1;
      }
      return Failure(FuelExhausted);
    }
  }
}
