/** The `MinHeap` of Dijkstras.js:145-338 as a class whose methods change its
    fields in place, step by step as the JavaScript does. Each method is
    proved to leave the state that the matching function of HeapModel
    computes from the state before, so every fact proved about those
    functions (HeapClosed, HeapWalk, HeapFacts, HeapShift) holds of the
    class. */
module Heap {
  import opened Wrappers
  import opened Seqs
  import opened HeapModel
  import HeapClosed
  import HeapWalk

  /** How a call that can go wrong ended: normally, with the TypeError that
      indexing `depthCache` with a negative depth raises, or not at all
      because the walk up the parent links goes round a cycle. */
  datatype Status = Ok | TypeError | Cycle

  /** The children whose depth is `b`, one more child at a time. */
  lemma {:induction false} AtDepthSnoc(nodes: map<Name, Entry>, kids: seq<Name>, x: Name, b: int)
    ensures AtDepth(nodes, kids + [x], b) == AtDepth(nodes, kids, b) + if Rec(nodes, x).depth == b then [x] else []
    decreases |kids|
  {
    if kids == [] {
      assert AtDepth(nodes, [x], b) == (if Rec(nodes, x).depth == b then [x] else []) + AtDepth(nodes, [], b);
    } else {
      assert (kids + [x])[1..] == kids[1..] + [x];
      AtDepthSnoc(nodes, kids[1..], x, b);
    }
  }

  /** The buckets after every name of `kids` is pushed onto the bucket of
      its depth, as in Promoted. */
  ghost function Pushed(cache: seq<seq<Name>>, nodes: map<Name, Entry>, kids: seq<Name>): seq<seq<Name>>
    requires |cache| == DepthMax + 1
  {
    seq(DepthMax + 1, b requires 0 <= b <= DepthMax => cache[b] + AtDepth(nodes, kids, b))
  }

  /** Pushing one more child onto the buckets. */
  lemma PushedSnoc(cache: seq<seq<Name>>, nodes: map<Name, Entry>, kids: seq<Name>, x: Name)
    requires |cache| == DepthMax + 1
    ensures var before := Pushed(cache, nodes, kids); var d := Rec(nodes, x).depth;
      Pushed(cache, nodes, kids + [x]) ==
        if 0 <= d <= DepthMax then before[d := before[d] + [x]] else before
  {
    var before := Pushed(cache, nodes, kids);
    var after := Pushed(cache, nodes, kids + [x]);
    var d := Rec(nodes, x).depth;
    var want := if 0 <= d <= DepthMax then before[d := before[d] + [x]] else before;
    forall b | 0 <= b <= DepthMax ensures after[b] == want[b] {
      AtDepthSnoc(nodes, kids, x, b);
    }
  }

  /** No child pushed yet. */
  lemma PushedNone(cache: seq<seq<Name>>, nodes: map<Name, Entry>)
    requires |cache| == DepthMax + 1
    ensures Pushed(cache, nodes, []) == cache
  {
    forall b | 0 <= b <= DepthMax ensures Pushed(cache, nodes, [])[b] == cache[b] {
      assert AtDepth(nodes, [], b) == [];
    }
  }

  /** Handing one more child to the parent `p`. */
  lemma ReparentedSnoc(nodes: map<Name, Entry>, kids: seq<Name>, x: Name, p: Option<Name>)
    requires x in nodes
    ensures var before := Reparented(nodes, kids, p);
      && x in before && before[x].depth == nodes[x].depth
      && Reparented(nodes, kids + [x], p) == before[x := before[x].(parent := p)]
  {
  }

  /** One more child with or without a negative depth. */
  lemma SomeNegativeSnoc(nodes: map<Name, Entry>, kids: seq<Name>, x: Name)
    ensures SomeNegative(nodes, kids + [x]) <==> SomeNegative(nodes, kids) || Rec(nodes, x).depth < 0
  {
    if SomeNegative(nodes, kids + [x]) {
      var k :| 0 <= k < |kids + [x]| && Rec(nodes, (kids + [x])[k]).depth < 0;
      if k < |kids| {
        assert (kids + [x])[k] == kids[k];
      }
    }
    if SomeNegative(nodes, kids) {
      var k :| 0 <= k < |kids| && Rec(nodes, kids[k]).depth < 0;
      assert (kids + [x])[k] == kids[k];
    }
    assert (kids + [x])[|kids|] == x;
  }

  /** The records after the walk has visited the names of `t` in turn, each
      visit lowering the depth of the name visited by one. */
  ghost function Decremented(nodes: map<Name, Entry>, t: seq<Name>): map<Name, Entry>
    decreases |t|
  {
    if t == [] then nodes
    else
      var before := Decremented(nodes, t[..|t| - 1]);
      var x := t[|t| - 1];
      if x in before then before[x := before[x].(depth := before[x].depth - 1)] else before
  }

  /** Each record has lost one depth per visit. */
  lemma {:induction false} DecrementedCounts(nodes: map<Name, Entry>, t: seq<Name>)
    ensures Decremented(nodes, t).Keys == nodes.Keys
    ensures forall m | m in nodes :: Decremented(nodes, t)[m] == nodes[m].(depth := nodes[m].depth - Count(t, m))
    decreases |t|
  {
    if t != [] {
      var front := t[..|t| - 1];
      var x := t[|t| - 1];
      DecrementedCounts(nodes, front);
      assert t == front + [x];
      assert multiset(t) == multiset(front) + multiset{x};
    }
  }

  /** The visit to `s[k]`. */
  lemma DecrementedStep(nodes: map<Name, Entry>, s: seq<Name>, k: nat)
    requires k < |s| && s[k] in nodes
    ensures var before := Decremented(nodes, s[..k]);
      && s[k] in before && before[s[k]].parent == nodes[s[k]].parent
      && Decremented(nodes, s[..k + 1]) == before[s[k] := before[s[k]].(depth := before[s[k]].depth - 1)]
  {
    DecrementedCounts(nodes, s[..k]);
    assert s[..k + 1][..k] == s[..k];
  }

  /** A walk that visits no name twice lowers each name it visits by one. */
  lemma DecrementedDistinct(nodes: map<Name, Entry>, t: seq<Name>)
    requires Distinct(t)
    ensures Decremented(nodes, t) == Lowered(nodes, t)
  {
    DecrementedCounts(nodes, t);
    HeapWalk.LoweredCounts(nodes, t);
  }

  class MinHeap {
    var min: Option<Name>
    var roots: seq<Name>
    var nodes: map<Name, Entry>
    /** The seven buckets of `depthCache`, one per depth 0 to 6. */
    const depthCache: array<seq<Name>>

    /** The fields as a HeapModel state. */
    ghost function State(): Heap
      reads this, depthCache
    {
      Heap(min, roots, nodes, depthCache[..])
    }

    /** Seven buckets, and every name the heap mentions has a record. */
    ghost predicate Valid()
      reads this, depthCache
    {
      depthCache.Length == DepthMax + 1 && Closed(State())
    }

    /** `new MinHeap()` (Dijkstras.js:146-152). */
    constructor ()
      ensures Valid() && State() == EmptyHeap()
      ensures fresh(depthCache)
    {
      min := None;
      roots := [];
      nodes := map[];
      depthCache := new seq<Name>[DepthMax + 1](_ => []);
      new;
      assert depthCache[..] == EmptyHeap().cache;
    }

    /** `getDistance(n)` (Dijkstras.js:329-335). */
    function GetDistance(n: Name): (d: Dist)
      reads this
      ensures d.Inf? <==> n !in nodes
      ensures n in nodes ==> d == Fin(nodes[n].distance)
    {
      Distance(nodes, n)
    }

    /** `add(n, d)` (Dijkstras.js:233-252). */
    method Add(n: Name, d: nat)
      requires Valid()
      modifies this, depthCache
      ensures Valid() && State() == Added(old(State()), n, d)
    {
      ghost var h := State();
      HeapClosed.AddedClosed(h, n, d);
      nodes := nodes[n := Entry(d, 0, None, [])];
      if min.None? || nodes[n].distance < nodes[min.value].distance {
        min := Some(n);
      }
      roots := roots + [n];
      depthCache[0] := depthCache[0] + [n];
      assert depthCache[..] == h.cache[0 := h.cache[0] + [n]];
    }

    /** One pass of the loop over the children (Dijkstras.js:284-297), after
        the children `done` of the records `nodes0` and buckets `cache0`
        have been handled: `child` takes the parent `p`, joins `roots` when
        `p` is null, and is pushed onto the bucket of its depth. */
    method PromoteChild(child: Name, p: Option<Name>, ghost nodes0: map<Name, Entry>,
                        ghost cache0: seq<seq<Name>>, ghost done: seq<Name>) returns (st: Status)
      requires depthCache.Length == DepthMax + 1 && |cache0| == DepthMax + 1 && child in nodes0
      requires nodes == Reparented(nodes0, done, p) && depthCache[..] == Pushed(cache0, nodes0, done)
      requires !SomeNegative(nodes0, done)
      modifies this, depthCache
      ensures min == old(min)
      ensures nodes == Reparented(nodes0, done + [child], p)
      ensures roots == if p.None? then old(roots) + [child] else old(roots)
      ensures st.Ok? <==> !SomeNegative(nodes0, done + [child])
      ensures !st.Cycle?
      ensures st.Ok? ==> depthCache[..] == Pushed(cache0, nodes0, done + [child])
    {
      ReparentedSnoc(nodes0, done, child, p);
      SomeNegativeSnoc(nodes0, done, child);
      PushedSnoc(cache0, nodes0, done, child);
      nodes := nodes[child := nodes[child].(parent := p)];
      if p.None? {
        roots := roots + [child];
      }
      var depth := nodes[child].depth;
      if depth <= DepthMax {
        if depth < 0 {
          return TypeError;
        }
        depthCache[depth] := depthCache[depth] + [child];
      }
      return Ok;
    }

    /** The loop over the children of a removed node (Dijkstras.js:281-299):
        each child takes the parent `p`, joins `roots` when `p` is null, and
        is pushed onto the bucket of its depth. */
    method PromoteChildren(kids: seq<Name>, p: Option<Name>) returns (st: Status)
      requires depthCache.Length == DepthMax + 1 && Known(nodes, kids)
      modifies this, depthCache
      ensures !st.Cycle?
      ensures st.TypeError? <==> Promoted(old(State()), kids, p).Fault?
      ensures st.Ok? ==> State() == Promoted(old(State()), kids, p).value
    {
      ghost var h := State();
      PushedNone(h.cache, h.nodes);
      var i := 0;
      while i < |kids|
        invariant 0 <= i <= |kids|
        invariant min == h.min
        invariant roots == if p.None? then h.roots + kids[..i] else h.roots
        invariant nodes == Reparented(h.nodes, kids[..i], p)
        invariant depthCache[..] == Pushed(h.cache, h.nodes, kids[..i])
        invariant !SomeNegative(h.nodes, kids[..i])
      {
        var child := kids[i];
        assert kids[..i + 1] == kids[..i] + [child];
        assert child in h.nodes by { assert child in kids; }
        st := PromoteChild(child, p, h.nodes, h.cache, kids[..i]);
        if !st.Ok? {
          return;
        }
        i := i + 1;
      }
      assert kids[..i] == kids;
      return Ok;
    }

    /** One step of the walk (Dijkstras.js:316-317): the `k`-th name `x`
        of the walk `s` from the records `nodes0` loses one depth, and its
        parent is where the walk goes next. */
    method LowerDepth(x: Name, ghost nodes0: map<Name, Entry>, ghost s: seq<Name>, ghost k: nat)
      returns (up: Option<Name>)
      requires k < |s| && x == s[k] && x in nodes0 && nodes == Decremented(nodes0, s[..k])
      modifies this
      ensures nodes == Decremented(nodes0, s[..k + 1]) && up == Rec(nodes0, x).parent
      ensures min == old(min) && roots == old(roots)
    {
      DecrementedStep(nodes0, s, k);
      nodes := nodes[x := nodes[x].(depth := nodes[x].depth - 1)];
      up := nodes[x].parent;
    }

    /** The loop at Dijkstras.js:313-318: from `p` up through the parent
        links, every name met loses one depth. The JavaScript loop runs
        until it meets a name without parent; after as many steps as there
        are records the walk has met some name twice and would go round
        forever, so the loop stops there, and `next` is then not `None`. */
    method WalkUp(p: Name) returns (last: Name, next: Option<Name>)
      requires p in nodes && LinksKnown(nodes)
      modifies this
      ensures var s := Ancestors(old(nodes), p, |old(nodes)|);
        |s| > 0 && last == s[|s| - 1] && next == Rec(old(nodes), last).parent
        && nodes == Decremented(old(nodes), s)
      ensures min == old(min) && roots == old(roots)
    {
      ghost var nodes0 := nodes;
      ghost var s := Ancestors(nodes0, p, |nodes0|);
      assert |nodes0| > 0 by { assert p in nodes0.Keys; }
      HeapClosed.AncestorsKnown(nodes0, p, |nodes0|);
      HeapWalk.AncestorsEnd(nodes0, p, |nodes0|);
      next := Some(p);
      last := p;
      var steps := 0;
      var bound := |nodes|;
      while next.Some? && steps < bound
        invariant 0 <= steps <= |s|
        invariant min == old(min) && roots == old(roots)
        invariant nodes == Decremented(nodes0, s[..steps])
        invariant steps == 0 ==> next == Some(p)
        invariant steps > 0 ==> last == s[steps - 1] && next == Rec(nodes0, last).parent
        decreases |s| - steps
      {
        assert steps < |s| && next.value == s[steps] by {
          if steps > 0 {
            assert s[steps - 1] in s;
            HeapWalk.AncestorsNext(nodes0, p, |nodes0|, steps);
          }
        }
        last := next.value;
        assert last in nodes0 by { assert last in s; }
        next := LowerDepth(last, nodes0, s, steps);
        steps := steps + 1;
      }
      assert steps == |s| by {
        if steps < bound {
          assert next.None? && steps > 0;
          if steps < |s| {
            assert s[steps - 1] in s;
            HeapWalk.AncestorsNext(nodes0, p, |nodes0|, steps);
          }
        }
      }
      assert s[..steps] == s;
    }

    /** The walk at Dijkstras.js:309-325 up from the parent `p` of a removed
        node: every name it meets loses one depth, and the topmost one is
        pushed onto the bucket of its new depth; a walk that goes round
        reports `Cycle`. */
    method Climb(p: Name) returns (st: Status)
      requires depthCache.Length == DepthMax + 1 && p in nodes && LinksKnown(nodes)
      modifies this, depthCache
      ensures st.Ok? <==> Lifted(old(State()), p).Done?
      ensures st.TypeError? <==> Lifted(old(State()), p).Fault?
      ensures st.Ok? ==> State() == Lifted(old(State()), p).value
    {
      ghost var h := State();
      ghost var s := Ancestors(h.nodes, p, |h.nodes|);
      HeapClosed.AncestorsKnown(h.nodes, p, |h.nodes|);
      var last, next := WalkUp(p);
      if next.Some? {
        return Cycle;
      }
      HeapWalk.AncestorsChain(h.nodes, p, |h.nodes|);
      HeapWalk.ChainToRootDistinct(h.nodes, s);
      DecrementedDistinct(h.nodes, s);
      var depth := nodes[last].depth;
      if depth <= DepthMax {
        if depth < 0 {
          return TypeError;
        }
        depthCache[depth] := depthCache[depth] + [last];
      }
      return Ok;
    }

    /** Dijkstras.js:268-278: a node without a parent leaves the bucket of
        its depth; a negative depth makes `depthCache[depth]` undefined and
        `indexOf` on it raises a TypeError. */
    method Unbucket(n: Name) returns (st: Status)
      requires depthCache.Length == DepthMax + 1 && n in nodes
      modifies depthCache
      ensures !st.Cycle?
      ensures st.TypeError? <==> Unbucketed(old(State()), n).Fault?
      ensures st.Ok? ==> State() == Unbucketed(old(State()), n).value
    {
      ghost var h := State();
      var e := nodes[n];
      if e.parent.None? {
        var depth := e.depth;
        if depth <= DepthMax {
          if depth < 0 {
            return TypeError;
          }
          DropFromBucket(depth, n);
        }
      }
      return Ok;
    }

    /** Dijkstras.js:280-326 for the removed name `n` whose record is `e`:
        the children take `e.parent`, then `n` leaves `roots` or the walk
        climbs from `e.parent`. */
    method Relink(n: Name, e: Entry) returns (st: Status)
      requires depthCache.Length == DepthMax + 1 && Closed(State())
      requires Known(nodes, e.children) && (e.parent.Some? ==> e.parent.value in nodes)
      modifies this, depthCache
      ensures st.Ok? <==> Relinked(old(State()), n, e).Done?
      ensures st.TypeError? <==> Relinked(old(State()), n, e).Fault?
      ensures st.Ok? ==> State() == Relinked(old(State()), n, e).value
    {
      ghost var h := State();
      st := PromoteChildren(e.children, e.parent);
      if !st.Ok? {
        return;
      }
      HeapClosed.PromotedClosed(h, e.children, e.parent);
      if e.parent.None? {
        var pos := IndexOf(roots, n);
        if pos > -1 {
          roots := roots[..pos] + roots[pos + 1..];
        }
      } else {
        st := Climb(e.parent.value);
      }
    }

    /** Dijkstras.js:272-275: the first `n` in bucket `depth`, if any, leaves
        it. */
    method DropFromBucket(depth: nat, n: Name)
      requires depthCache.Length == DepthMax + 1 && depth <= DepthMax
      modifies depthCache
      ensures depthCache[..] == old(depthCache[..])[depth := RemoveFirst(old(depthCache[depth]), n)]
    {
      var pos := IndexOf(depthCache[depth], n);
      if pos > -1 {
        depthCache[depth] := depthCache[depth][..pos] + depthCache[depth][pos + 1..];
      }
    }

    /** `remove(n)` (Dijkstras.js:260-327): a name without a record is
        ignored; otherwise the node leaves its bucket and is relinked. Its
        own record stays. */
    method Remove(n: Name) returns (st: Status)
      requires Valid()
      modifies this, depthCache
      ensures st.Ok? <==> Removed(old(State()), n).Done?
      ensures st.TypeError? <==> Removed(old(State()), n).Fault?
      ensures st.Ok? ==> Valid() && State() == Removed(old(State()), n).value
    {
      if n !in nodes {
        return Ok;
      }
      ghost var h := State();
      var e := nodes[n];
      st := Unbucket(n);
      if !st.Ok? {
        return;
      }
      HeapClosed.UnbucketedClosed(h, n);
      assert Known(nodes, e.children) && (e.parent.Some? ==> e.parent.value in nodes) by {
        assert nodes[n] == e;
      }
      st := Relink(n, e);
      if st.Ok? {
        HeapClosed.RemovedClosed(h, n);
      }
    }

    /** `update(n, d)` (Dijkstras.js:254-258): `remove` then `add`. */
    method Update(n: Name, d: nat) returns (st: Status)
      requires Valid()
      modifies this, depthCache
      ensures st.Ok? <==> Updated(old(State()), n, d).Done?
      ensures st.TypeError? <==> Updated(old(State()), n, d).Fault?
      ensures st.Ok? ==> Valid() && State() == Updated(old(State()), n, d).value
    {
      st := Remove(n);
      if st.Ok? {
        Add(n, d);
      }
    }

    /** One branch of Dijkstras.js:201-225: `winner` moves to depth
        `depth + 1` and takes `loser` as its last child, is pushed onto the
        next bucket when there is one, and `loser` leaves `roots`. */
    method Adopt(winner: Name, loser: Name, depth: nat)
      requires depthCache.Length == DepthMax + 1 && depth <= DepthMax
      requires winner in nodes && loser in nodes
      modifies this, depthCache
      ensures min == old(min)
      ensures nodes == Adopted(old(nodes), winner, loser, depth)
      ensures roots == RemoveFirst(old(roots), loser)
      ensures depthCache[..] ==
        if depth + 1 <= DepthMax then old(depthCache[..])[depth + 1 := old(depthCache[..])[depth + 1] + [winner]]
        else old(depthCache[..])
    {
      var newDepth := depth + 1;
      nodes := nodes[winner := nodes[winner].(depth := newDepth)];
      nodes := nodes[winner := nodes[winner].(children := nodes[winner].children + [loser])];
      nodes := nodes[loser := nodes[loser].(parent := Some(winner))];
      if newDepth <= DepthMax {
        depthCache[newDepth] := depthCache[newDepth] + [winner];
      }
      var pos := IndexOf(roots, loser);
      if pos > -1 {
        roots := roots[..pos] + roots[pos + 1..];
      }
    }

    /** One pass of the inner loop of `consolidate` (Dijkstras.js:195-228):
        the first two names leave bucket `depth`, and the one with the
        smaller distance (the second on a tie) adopts the other. */
    method MergeFront(depth: nat)
      requires Valid() && depth <= DepthMax && |depthCache[depth]| >= 2
      modifies this, depthCache
      ensures Valid() && State() == MergeStep(old(State()), depth)
    {
      ghost var h := State();
      HeapClosed.MergeStepClosed(h, depth);
      HeapClosed.BucketKnown(h, depth);
      var first := depthCache[depth][0];
      depthCache[depth] := depthCache[depth][1..];
      var second := depthCache[depth][0];
      depthCache[depth] := depthCache[depth][1..];
      assert depthCache[..] == h.cache[depth := h.cache[depth][2..]];
      assert first in nodes && second in nodes by {
        assert first == h.cache[depth][0] && second == h.cache[depth][1];
      }
      if nodes[first].distance < nodes[second].distance {
        Adopt(first, second, depth);
      } else {
        Adopt(second, first, depth);
      }
    }

    /** `consolidate()` (Dijkstras.js:187-231): bucket after bucket, merge
        the first two names until at most one is left. */
    method Consolidate()
      requires Valid()
      modifies this, depthCache
      ensures Valid() && State() == Consolidated(old(State()))
    {
      ghost var h0 := State();
      var depth := 0;
      while depth <= DepthMax
        invariant 0 <= depth <= DepthMax + 1
        invariant Valid()
        invariant ConsolidateFrom(State(), depth) == Consolidated(h0)
      {
        while |depthCache[depth]| > 1
          invariant Valid()
          invariant ConsolidateFrom(Drain(State(), depth), depth + 1) == Consolidated(h0)
          decreases |depthCache[depth]|
        {
          MergeFront(depth);
        }
        depth := depth + 1;
      }
    }

    /** `shift()` (Dijkstras.js:154-185): hands out the `min` it starts with.
        With no `min` or no root it only clears `min`; otherwise it removes
        that node, consolidates, and scans `roots` for the first name of
        smallest distance, leaving `min` as it was when there is no root. */
    method Shift() returns (m: Option<Name>, st: Status)
      requires Valid()
      modifies this, depthCache
      ensures m == old(min)
      ensures st.Ok? <==> Shifted(old(State())).Done?
      ensures st.TypeError? <==> Shifted(old(State())).Fault?
      ensures st.Ok? ==> Valid() && State() == Shifted(old(State())).value
    {
      m := min;
      if min.None? || |roots| < 1 {
        min := None;
        return m, Ok;
      }
      ghost var h := State();
      st := Remove(m.value);
      if !st.Ok? {
        return;
      }
      Consolidate();
      ghost var h2 := State();
      var lowest := Inf;
      var length := |roots|;
      var i := 0;
      while i < length
        invariant 0 <= i <= length == |roots|
        invariant roots == h2.roots && nodes == h2.nodes && depthCache[..] == h2.cache
        invariant ScanFrom(roots, nodes, i, lowest, min) == ScanFrom(h2.roots, h2.nodes, 0, Inf, h2.min)
      {
        var node := roots[i];
        var distance := GetDistance(node);
        if distance.Below(lowest) {
          lowest := distance;
          min := Some(node);
        }
        i := i + 1;
      }
      HeapClosed.ShiftedClosed(h);
    }
  }
}
