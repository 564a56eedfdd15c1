/** What each operation of the heap does, stated against the state before:
    what `add`, `update`, `remove`, `consolidate` and `shift` change and what
    they keep. */
module HeapFacts {
  import opened Wrappers
  import opened Seqs
  import opened HeapModel
  import HeapClosed
  import opened HeapWalk

  /** `min` names a root no farther than any other root. */
  ghost predicate MinLeast(h: Heap) {
    h.min.Some? ==>
      forall k :: 0 <= k < |h.roots| ==> !Distance(h.nodes, h.roots[k]).Below(Distance(h.nodes, h.min.value))
  }

  // ---------------------------------------------------------------- add

  /** `add(n, d)` stores a fresh record for `n` (depth 0, no parent, no
      children) that `getDistance` reports as `d`, leaves every other
      distance alone, appends `n` to `roots` and to bucket 0, and points
      `min` at `n` when there was no minimum or `d` is strictly below the
      distance of the minimum. */
  lemma AddFacts(h: Heap, n: Name, d: nat)
    requires Shaped(h)
    ensures var r := Added(h, n, d);
      && r.nodes[n] == Entry(d, 0, None, [])
      && Distance(r.nodes, n) == Fin(d)
      && (forall m | m != n :: Distance(r.nodes, m) == Distance(h.nodes, m))
      && r.roots == h.roots + [n]
      && r.cache[0] == h.cache[0] + [n]
      && (forall b :: 1 <= b <= DepthMax ==> r.cache[b] == h.cache[b])
      && r.min == if h.min.None? || (h.min.value != n && d < Rec(h.nodes, h.min.value).distance) then Some(n) else h.min
  {
  }

  /** When `add` does not raise a distance (a first insertion, or the one in
      `update` after a shorter route was found) a `min` that was least among
      the roots stays least, and there is a `min` afterwards. */
  lemma AddKeepsMinLeast(h: Heap, n: Name, d: nat)
    requires Shaped(h) && MinLeast(h) && (h.min.None? ==> h.roots == [])
    requires h.min.Some? ==> h.min.value in h.nodes
    requires n in h.nodes ==> d <= h.nodes[n].distance
    ensures MinLeast(Added(h, n, d)) && Added(h, n, d).min.Some?
  {
    AddFacts(h, n, d);
    var r := Added(h, n, d);
    var mn := r.min.value;
    forall k | 0 <= k < |r.roots|
      ensures !Distance(r.nodes, r.roots[k]).Below(Distance(r.nodes, mn))
    {
      if k < |h.roots| {
        var x := h.roots[k];
        assert r.roots[k] == x;
        assert !Distance(h.nodes, x).Below(Distance(h.nodes, h.min.value));
      }
    }
  }

  // ------------------------------------------------------------- remove

  /** `remove` of a name without a record changes nothing
      (Dijkstras.js:262-264). */
  lemma RemoveUnknown(h: Heap, n: Name)
    requires Shaped(h) && n !in h.nodes
    ensures Removed(h, n).Done? && Removed(h, n).value == h
  {
  }

  /** The three steps of `remove(n)` for a name with a record. */
  lemma RemovedSteps(h: Heap, n: Name)
    requires Shaped(h) && n in h.nodes && Removed(h, n).Done?
    ensures var e := h.nodes[n];
      && Unbucketed(h, n).Done?
      && Promoted(Unbucketed(h, n).value, e.children, e.parent).Done?
      && var h2 := Promoted(Unbucketed(h, n).value, e.children, e.parent).value;
         Removed(h, n).value ==
           if e.parent.None? then h2.(roots := RemoveFirst(h2.roots, n)) else Lifted(h2, e.parent.value).value
  {
  }

  /** `remove` keeps every record and every distance: `getDistance` goes on
      reporting a removed node's old distance, which is what keeps an
      extracted node from being relaxed again. The minimum stays too. */
  lemma RemoveKeepsDistances(h: Heap, n: Name)
    requires Shaped(h) && Removed(h, n).Done?
    ensures var r := Removed(h, n).value;
      && r.nodes.Keys == h.nodes.Keys && r.min == h.min
      && forall m :: Distance(r.nodes, m) == Distance(h.nodes, m)
  {
    if n in h.nodes {
      RemovedSteps(h, n);
      var e := h.nodes[n];
      var h1 := Unbucketed(h, n).value;
      var h2 := Promoted(h1, e.children, e.parent).value;
      assert h1.nodes == h.nodes && h1.min == h.min;
      assert h2.nodes == Reparented(h.nodes, e.children, e.parent) && h2.min == h.min;
      assert forall m | m in h2.nodes :: h2.nodes[m].distance == h.nodes[m].distance;
      if e.parent.Some? {
        HeapClosed.LiftedShape(h2, e.parent.value);
      }
    }
  }

  /** The names AtDepth picks are exactly the children at depth `b`. */
  lemma {:induction false} AtDepthMembers(nodes: map<Name, Entry>, kids: seq<Name>, b: int)
    ensures forall y :: y in AtDepth(nodes, kids, b) <==> y in kids && Rec(nodes, y).depth == b
    decreases |kids|
  {
    if kids != [] {
      AtDepthMembers(nodes, kids[1..], b);
      assert kids == [kids[0]] + kids[1..];
    }
  }

  /** The loop over the children raises a TypeError exactly when some child
      has a negative depth; otherwise each child takes the parent `p`, the
      children are appended to `roots` when `p` is null, and each child with
      a depth of at most 6 is appended to its bucket. */
  lemma PromotedFacts(h: Heap, kids: seq<Name>, p: Option<Name>)
    requires Shaped(h)
    ensures Promoted(h, kids, p).Fault? <==> exists k :: 0 <= k < |kids| && Rec(h.nodes, kids[k]).depth < 0
    ensures Promoted(h, kids, p).Done? ==> var r := Promoted(h, kids, p).value;
      && r.min == h.min && r.nodes.Keys == h.nodes.Keys
      && r.roots == (if p.None? then h.roots + kids else h.roots)
      && (forall m | m in h.nodes :: r.nodes[m] == if m in kids then h.nodes[m].(parent := p) else h.nodes[m])
      && (forall b :: 0 <= b <= DepthMax ==> r.cache[b] == h.cache[b] + AtDepth(h.nodes, kids, b))
  {
  }

  /** `remove(n)` of a root raises a TypeError exactly when `n` or one of its
      children has a negative depth, and never hangs. */
  lemma RemoveRootFault(h: Heap, n: Name)
    requires Shaped(h) && n in h.nodes && h.nodes[n].parent.None?
    ensures var e := h.nodes[n];
      Removed(h, n).Fault? <==>
        e.depth < 0 || exists k :: 0 <= k < |e.children| && Rec(h.nodes, e.children[k]).depth < 0
    ensures !Removed(h, n).Hang?
  {
    var e := h.nodes[n];
    if Unbucketed(h, n).Done? {
      assert Unbucketed(h, n).value.nodes == h.nodes;
      PromotedFacts(Unbucketed(h, n).value, e.children, e.parent);
    }
  }

  /** `remove(n)` of a root: its children become roots and `n` leaves
      `roots` once. */
  lemma RemoveRootRoots(h: Heap, n: Name)
    requires Shaped(h) && n in h.nodes && h.nodes[n].parent.None? && Removed(h, n).Done?
    ensures var e := h.nodes[n]; var r := Removed(h, n).value;
      multiset(r.roots) == multiset(h.roots) + multiset(e.children) - multiset{n}
  {
    var e := h.nodes[n];
    RemovedSteps(h, n);
    var h1 := Unbucketed(h, n).value;
    assert h1.roots == h.roots;
    var h2 := Promoted(h1, e.children, e.parent).value;
    assert h2.roots == h.roots + e.children;
    RemoveFirstCount(h.roots + e.children, n);
  }

  /** `remove(n)` of a root: each child loses its parent and no depth
      changes. */
  lemma RemoveRootLinks(h: Heap, n: Name)
    requires Shaped(h) && n in h.nodes && h.nodes[n].parent.None? && Removed(h, n).Done?
    ensures var e := h.nodes[n]; var r := Removed(h, n).value;
      && (forall m | m in h.nodes :: r.nodes[m].parent == if m in e.children then None else h.nodes[m].parent)
      && (forall m | m in h.nodes :: r.nodes[m].depth == h.nodes[m].depth)
  {
    var e := h.nodes[n];
    RemovedSteps(h, n);
    var h1 := Unbucketed(h, n).value;
    assert h1.nodes == h.nodes;
    PromotedFacts(h1, e.children, e.parent);
  }

  /** `remove(n)` of a root: `n` leaves the bucket of its depth once, and
      each child is appended to the bucket of its own depth. */
  lemma RemoveRootBuckets(h: Heap, n: Name)
    requires Shaped(h) && n in h.nodes && h.nodes[n].parent.None? && Removed(h, n).Done?
    ensures var e := h.nodes[n]; var r := Removed(h, n).value;
      forall b :: 0 <= b <= DepthMax ==>
        multiset(r.cache[b]) ==
          (multiset(h.cache[b]) - (if b == e.depth then multiset{n} else multiset{})) + multiset(AtDepth(h.nodes, e.children, b))
  {
    var e := h.nodes[n];
    RemovedSteps(h, n);
    var h1 := Unbucketed(h, n).value;
    assert h1.nodes == h.nodes;
    assert 0 <= e.depth <= DepthMax ==> h1.cache == h.cache[e.depth := RemoveFirst(h.cache[e.depth], n)];
    assert e.depth > DepthMax ==> h1.cache == h.cache;
    PromotedFacts(h1, e.children, e.parent);
    var r := Removed(h, n).value;
    forall b | 0 <= b <= DepthMax
      ensures multiset(r.cache[b]) ==
        (multiset(h.cache[b]) - (if b == e.depth then multiset{n} else multiset{})) + multiset(AtDepth(h.nodes, e.children, b))
    {
      assert r.cache[b] == h1.cache[b] + AtDepth(h.nodes, e.children, b);
      if b == e.depth {
        RemoveFirstCount(h.cache[b], n);
      }
    }
  }

  /** The records `remove(n)` walks on, for a node `n` with a parent: every
      child of `n` already points at that parent. */
  ghost function LinksAfterPromote(h: Heap, n: Name): map<Name, Entry>
    requires n in h.nodes
  {
    Reparented(h.nodes, h.nodes[n].children, h.nodes[n].parent)
  }

  /** The names the walk of `remove(n)` visits. */
  ghost function Walk(h: Heap, n: Name): seq<Name>
    requires n in h.nodes && h.nodes[n].parent.Some?
  {
    var links := LinksAfterPromote(h, n);
    Ancestors(links, h.nodes[n].parent.value, |links|)
  }

  /** For a node with a parent the first two steps of `remove` leave the
      buckets alone and only hand the children to that parent. */
  lemma PromotedInner(h: Heap, n: Name)
    requires Closed(h) && n in h.nodes && h.nodes[n].parent.Some?
    requires Promoted(h, h.nodes[n].children, h.nodes[n].parent).Done?
    ensures Unbucketed(h, n) == Done(h)
    ensures var h2 := Promoted(h, h.nodes[n].children, h.nodes[n].parent).value;
      && h2.nodes == LinksAfterPromote(h, n) && LinksKnown(h2.nodes) && Shaped(h2)
      && h.nodes[n].parent.value in h2.nodes
  {
    var e := h.nodes[n];
    assert Known(h.nodes, e.children);
    HeapClosed.PromotedClosed(h, e.children, e.parent);
  }

  /** When `remove(n)` of a node with a parent returns, the walk went from
      that parent up the links to a node without parent, visiting no name
      twice. */
  lemma RemoveInnerWalk(h: Heap, n: Name)
    requires Closed(h) && n in h.nodes && h.nodes[n].parent.Some? && Removed(h, n).Done?
    ensures var s := Walk(h, n); var links := LinksAfterPromote(h, n);
      && |s| > 0 && s[0] == h.nodes[n].parent.value
      && IsChain(links, s) && Rec(links, s[|s| - 1]).parent.None? && Distinct(s)
  {
    var e := h.nodes[n];
    RemovedSteps(h, n);
    PromotedInner(h, n);
    var h2 := Promoted(h, e.children, e.parent).value;
    var p := e.parent.value;
    LiftedHangAt(h2, p);
    var links := LinksAfterPromote(h, n);
    AncestorsChain(links, p, |links|);
    ChainToRootDistinct(links, Walk(h, n));
  }

  /** For a node with a parent, `remove` is the walk on the records after
      the children were handed over. */
  lemma RemovedInner(h: Heap, n: Name)
    requires Closed(h) && n in h.nodes && h.nodes[n].parent.Some? && Removed(h, n).Done?
    ensures var e := h.nodes[n];
      && Promoted(h, e.children, e.parent).Done?
      && var h2 := Promoted(h, e.children, e.parent).value;
         && h2.nodes == LinksAfterPromote(h, n) && Shaped(h2)
         && Removed(h, n) == Lifted(h2, e.parent.value)
  {
    RemovedSteps(h, n);
    PromotedInner(h, n);
  }

  /** The walk lowers the depth of each name it visits by one and changes
      nothing else in the records. */
  lemma LiftedDepths(h: Heap, p: Name)
    requires Shaped(h) && Lifted(h, p).Done?
    ensures var r := Lifted(h, p).value; var s := Ancestors(h.nodes, p, |h.nodes|);
      && r.nodes.Keys == h.nodes.Keys
      && forall m | m in h.nodes ::
           r.nodes[m] == h.nodes[m].(depth := h.nodes[m].depth - if m in s then 1 else 0)
  {
    HeapClosed.LiftedShape(h, p);
  }

  /** `remove(n)` of a node with a parent: every name the walk visits loses
      one depth, and no other depth changes. */
  lemma RemoveInnerDepths(h: Heap, n: Name)
    requires Closed(h) && n in h.nodes && h.nodes[n].parent.Some? && Removed(h, n).Done?
    ensures var r := Removed(h, n).value; var s := Walk(h, n);
      forall m | m in h.nodes :: r.nodes[m].depth == h.nodes[m].depth - if m in s then 1 else 0
  {
    var e := h.nodes[n];
    RemovedInner(h, n);
    var h2 := Promoted(h, e.children, e.parent).value;
    LiftedDepths(h2, e.parent.value);
  }

  /** `remove(n)` of a node with a parent: `roots` and `min` stay and the
      children take that parent. */
  lemma RemoveInnerLinks(h: Heap, n: Name)
    requires Closed(h) && n in h.nodes && h.nodes[n].parent.Some? && Removed(h, n).Done?
    ensures var e := h.nodes[n]; var r := Removed(h, n).value;
      && r.roots == h.roots && r.min == h.min && r.nodes.Keys == h.nodes.Keys
      && forall m | m in h.nodes :: r.nodes[m].parent == if m in e.children then e.parent else h.nodes[m].parent
  {
    var e := h.nodes[n];
    RemovedInner(h, n);
    var h2 := Promoted(h, e.children, e.parent).value;
    LiftedDepths(h2, e.parent.value);
    HeapClosed.LiftedShape(h2, e.parent.value);
  }

  /** The walk pushes its topmost name onto the bucket of its new depth. */
  lemma LiftedBuckets(h: Heap, p: Name)
    requires Shaped(h) && p in h.nodes && LinksKnown(h.nodes) && Lifted(h, p).Done?
    ensures var s := Ancestors(h.nodes, p, |h.nodes|); var r := Lifted(h, p).value;
      && |s| > 0 && s[|s| - 1] in h.nodes
      && forall b :: 0 <= b <= DepthMax ==>
           r.cache[b] == h.cache[b] + if b == h.nodes[s[|s| - 1]].depth - 1 then [s[|s| - 1]] else []
  {
    var s := Ancestors(h.nodes, p, |h.nodes|);
    HeapClosed.AncestorsKnown(h.nodes, p, |h.nodes|);
    var top := s[|s| - 1];
    assert top in s;
    var depth := Rec(Lowered(h.nodes, s), top).depth;
    assert depth == h.nodes[top].depth - 1;
    HeapClosed.LiftedShape(h, p);
    var r := Lifted(h, p).value;
    forall b | 0 <= b <= DepthMax
      ensures r.cache[b] == h.cache[b] + if b == depth then [top] else []
    {
    }
  }

  /** `remove(n)` of a node with a parent hangs exactly when no child has a
      negative depth and the walk up from the parent, given one more step
      than there are records, repeats a name: it goes round a cycle of
      parent links forever. */
  lemma RemoveInnerHang(h: Heap, n: Name)
    requires Closed(h) && n in h.nodes && h.nodes[n].parent.Some?
    ensures var e := h.nodes[n]; var links := LinksAfterPromote(h, n);
      Removed(h, n).Hang? <==>
        && !SomeNegative(h.nodes, e.children)
        && !Distinct(Ancestors(links, e.parent.value, |links| + 1))
  {
    var e := h.nodes[n];
    if !SomeNegative(h.nodes, e.children) {
      PromotedInner(h, n);
      var h2 := Promoted(h, e.children, e.parent).value;
      LiftedHangIffRepeat(h2, e.parent.value);
    }
  }

  // ------------------------------------------------------------- update

  /** `update(n, d)` leaves `n` with distance `d`, a root at the end of
      `roots` and of bucket 0, and every other distance as it was. */
  lemma UpdateFacts(h: Heap, n: Name, d: nat)
    requires Shaped(h) && Updated(h, n, d).Done?
    ensures var r := Updated(h, n, d).value;
      && Distance(r.nodes, n) == Fin(d)
      && (forall m | m != n :: Distance(r.nodes, m) == Distance(h.nodes, m))
      && r.nodes[n] == Entry(d, 0, None, [])
      && |r.roots| > 0 && r.roots[|r.roots| - 1] == n
      && |r.cache[0]| > 0 && r.cache[0][|r.cache[0]| - 1] == n
  {
    RemoveKeepsDistances(h, n);
    var h1 := Removed(h, n).value;
    AddFacts(h1, n, d);
  }
}
