/** Every operation of HeapModel keeps the heap `Closed`: each name that
    `min`, `roots`, a bucket, a parent link or a children list mentions has a
    record. The JavaScript reads `this.nodes[x].field` for such names
    throughout (Dijkstras.js:200, 245, 285, 294, 316, 322), which raises a
    TypeError for a name without a record; these lemmas show it never does,
    starting from the empty heap. */
module HeapClosed {
  import opened Wrappers
  import opened Seqs
  import opened HeapModel

  /** The walk up from a known name meets known names only. */
  lemma {:induction false} AncestorsKnown(nodes: map<Name, Entry>, p: Name, fuel: nat)
    requires p in nodes && LinksKnown(nodes)
    ensures Known(nodes, Ancestors(nodes, p, fuel))
    decreases fuel
  {
    if fuel > 0 && nodes[p].parent.Some? {
      var q := nodes[p].parent.value;
      assert q in nodes;
      AncestorsKnown(nodes, q, fuel - 1);
    }
  }

  /** The names AtDepth picks come from `kids`. */
  lemma {:induction false} AtDepthFrom(nodes: map<Name, Entry>, kids: seq<Name>, b: int)
    ensures forall y :: y in AtDepth(nodes, kids, b) ==> y in kids
    decreases |kids|
  {
    if kids != [] {
      AtDepthFrom(nodes, kids[1..], b);
      assert kids == [kids[0]] + kids[1..];
    }
  }

  /** Handing children to a known parent keeps every link known. */
  lemma ReparentedLinks(nodes: map<Name, Entry>, kids: seq<Name>, p: Option<Name>)
    requires LinksKnown(nodes) && (p.Some? ==> p.value in nodes)
    ensures Reparented(nodes, kids, p).Keys == nodes.Keys
    ensures LinksKnown(Reparented(nodes, kids, p))
  {
    var r := Reparented(nodes, kids, p);
    forall m | m in r ensures (r[m].parent.Some? ==> r[m].parent.value in r) && Known(r, r[m].children) {
      assert Known(nodes, nodes[m].children);
    }
  }

  /** Lowering depths keeps every link known. */
  lemma LoweredLinks(nodes: map<Name, Entry>, s: seq<Name>)
    requires LinksKnown(nodes)
    ensures Lowered(nodes, s).Keys == nodes.Keys
    ensures LinksKnown(Lowered(nodes, s))
  {
    var r := Lowered(nodes, s);
    forall m | m in r ensures (r[m].parent.Some? ==> r[m].parent.value in r) && Known(r, r[m].children) {
      assert Known(nodes, nodes[m].children);
    }
  }

  /** A winner adopting a loser, both known, keeps every link known. */
  lemma AdoptedLinks(nodes: map<Name, Entry>, winner: Name, loser: Name, d: nat)
    requires LinksKnown(nodes) && winner in nodes && loser in nodes
    ensures Adopted(nodes, winner, loser, d).Keys == nodes.Keys
    ensures LinksKnown(Adopted(nodes, winner, loser, d))
  {
    var r := Adopted(nodes, winner, loser, d);
    forall m | m in r ensures (r[m].parent.Some? ==> r[m].parent.value in r) && Known(r, r[m].children) {
      assert Known(nodes, nodes[m].children);
    }
  }

  /** Replacing the records by ones with the same keys and known links. */
  lemma WithNodes(h: Heap, nodes: map<Name, Entry>)
    requires Closed(h) && nodes.Keys == h.nodes.Keys && LinksKnown(nodes)
    ensures Closed(h.(nodes := nodes))
  {
    forall b | 0 <= b <= DepthMax ensures Known(nodes, h.cache[b]) {
      assert Known(h.nodes, h.cache[b]);
    }
  }

  /** Replacing bucket `d` by known names. */
  lemma WithBucket(h: Heap, d: nat, c: seq<Name>)
    requires Closed(h) && d <= DepthMax && Known(h.nodes, c)
    ensures Closed(h.(cache := h.cache[d := c]))
  {
    var r := h.(cache := h.cache[d := c]);
    forall b | 0 <= b <= DepthMax ensures Known(r.nodes, r.cache[b]) {
      if b != d { assert Known(h.nodes, h.cache[b]); }
    }
  }

  /** Every bucket of a closed heap names known nodes. */
  lemma BucketKnown(h: Heap, b: nat)
    requires Closed(h) && b <= DepthMax
    ensures Known(h.nodes, h.cache[b])
  {
  }

  lemma AddedClosed(h: Heap, n: Name, d: nat)
    requires Closed(h)
    ensures Closed(Added(h, n, d))
  {
    var nodes := h.nodes[n := Entry(d, 0, None, [])];
    forall m | m in nodes
      ensures (nodes[m].parent.Some? ==> nodes[m].parent.value in nodes) && Known(nodes, nodes[m].children)
    {
      if m != n {
        assert Known(h.nodes, h.nodes[m].children);
      }
    }
    var h1 := h.(nodes := nodes, roots := h.roots + [n]);
    forall b | 0 <= b <= DepthMax ensures Known(nodes, h.cache[b]) {
      assert Known(h.nodes, h.cache[b]);
    }
    assert Closed(h1);
    WithBucket(h1, 0, h.cache[0] + [n]);
  }

  lemma UnbucketedClosed(h: Heap, n: Name)
    requires Closed(h) && Unbucketed(h, n).Done?
    ensures Closed(Unbucketed(h, n).value)
    ensures Unbucketed(h, n).value.nodes == h.nodes
  {
    var e := Rec(h.nodes, n);
    if e.parent.None? && 0 <= e.depth <= DepthMax {
      BucketKnown(h, e.depth);
      WithBucket(h, e.depth, RemoveFirst(h.cache[e.depth], n));
    }
  }

  lemma PromotedClosed(h: Heap, kids: seq<Name>, p: Option<Name>)
    requires Closed(h) && Known(h.nodes, kids) && (p.Some? ==> p.value in h.nodes)
    requires Promoted(h, kids, p).Done?
    ensures Closed(Promoted(h, kids, p).value)
    ensures Promoted(h, kids, p).value.nodes.Keys == h.nodes.Keys
  {
    var r := Promoted(h, kids, p).value;
    ReparentedLinks(h.nodes, kids, p);
    forall b | 0 <= b <= DepthMax ensures Known(r.nodes, r.cache[b]) {
      AtDepthFrom(h.nodes, kids, b);
      BucketKnown(h, b);
    }
  }

  /** What a walk that ends leaves: lowered records, and the topmost
      ancestor `top` pushed onto the bucket of its new depth when there is
      one. */
  lemma LiftedShape(h: Heap, p: Name)
    requires Shaped(h) && Lifted(h, p).Done?
    ensures var s := Ancestors(h.nodes, p, |h.nodes|); var r := Lifted(h, p).value;
      && r.roots == h.roots && r.min == h.min
      && (s == [] ==> r == h)
      && (s != [] ==>
            var top := s[|s| - 1];
            var depth := Rec(Lowered(h.nodes, s), top).depth;
            && r.nodes == Lowered(h.nodes, s)
            && r.cache == if 0 <= depth <= DepthMax then h.cache[depth := h.cache[depth] + [top]] else h.cache)
  {
  }

  lemma LiftedClosed(h: Heap, p: Name)
    requires Closed(h) && p in h.nodes && Lifted(h, p).Done?
    ensures Closed(Lifted(h, p).value)
    ensures Lifted(h, p).value.nodes.Keys == h.nodes.Keys
  {
    var s := Ancestors(h.nodes, p, |h.nodes|);
    LiftedShape(h, p);
    if s != [] {
      AncestorsKnown(h.nodes, p, |h.nodes|);
      var top := s[|s| - 1];
      assert top in h.nodes;
      var nodes := Lowered(h.nodes, s);
      LoweredLinks(h.nodes, s);
      WithNodes(h, nodes);
      var h1 := h.(nodes := nodes);
      var depth := Rec(nodes, top).depth;
      if 0 <= depth <= DepthMax {
        BucketKnown(h1, depth);
        WithBucket(h1, depth, h.cache[depth] + [top]);
      }
    }
  }

  lemma RemovedClosed(h: Heap, n: Name)
    requires Closed(h) && Removed(h, n).Done?
    ensures Closed(Removed(h, n).value)
    ensures Removed(h, n).value.nodes.Keys == h.nodes.Keys
  {
    if n in h.nodes {
      var e := h.nodes[n];
      UnbucketedClosed(h, n);
      var h1 := Unbucketed(h, n).value;
      assert Known(h.nodes, e.children);
      PromotedClosed(h1, e.children, e.parent);
      var h2 := Promoted(h1, e.children, e.parent).value;
      if e.parent.Some? {
        LiftedClosed(h2, e.parent.value);
      }
    }
  }

  lemma UpdatedClosed(h: Heap, n: Name, d: nat)
    requires Closed(h) && Updated(h, n, d).Done?
    ensures Closed(Updated(h, n, d).value)
  {
    RemovedClosed(h, n);
    AddedClosed(Removed(h, n).value, n, d);
  }

  lemma MergeStepClosed(h: Heap, d: nat)
    requires Closed(h) && d <= DepthMax && |h.cache[d]| >= 2
    ensures Closed(MergeStep(h, d))
    ensures MergeStep(h, d).nodes.Keys == h.nodes.Keys
  {
    var (winner, loser) := Pair(h, d);
    BucketKnown(h, d);
    assert h.cache[d][0] in h.cache[d] && h.cache[d][1] in h.cache[d];
    AdoptedLinks(h.nodes, winner, loser, d);
    var nodes := Adopted(h.nodes, winner, loser, d);
    WithNodes(h, nodes);
    var h1 := h.(nodes := nodes, roots := RemoveFirst(h.roots, loser));
    assert Closed(h1);
    WithBucket(h1, d, h.cache[d][2..]);
    var h2 := h1.(cache := h.cache[d := h.cache[d][2..]]);
    if d + 1 <= DepthMax {
      BucketKnown(h2, d + 1);
      WithBucket(h2, d + 1, h2.cache[d + 1] + [winner]);
    }
  }

  lemma {:induction false} DrainClosed(h: Heap, d: nat)
    requires Closed(h) && d <= DepthMax
    ensures Closed(Drain(h, d))
    decreases |h.cache[d]|
  {
    if |h.cache[d]| > 1 {
      MergeStepClosed(h, d);
      DrainClosed(MergeStep(h, d), d);
    }
  }

  lemma {:induction false} ConsolidateFromClosed(h: Heap, d: nat)
    requires Closed(h) && d <= DepthMax + 1
    ensures Closed(ConsolidateFrom(h, d))
    decreases DepthMax + 1 - d
  {
    if d <= DepthMax {
      DrainClosed(h, d);
      ConsolidateFromClosed(Drain(h, d), d + 1);
    }
  }

  lemma ShiftedClosed(h: Heap)
    requires Closed(h) && Shifted(h).Done?
    ensures Closed(Shifted(h).value)
  {
    if h.min.Some? && |h.roots| >= 1 {
      RemovedClosed(h, h.min.value);
      var h1 := Removed(h, h.min.value).value;
      ConsolidateFromClosed(h1, 0);
      var h2 := Consolidated(h1);
      var m := ScanFrom(h2.roots, h2.nodes, 0, Inf, h2.min);
      assert m.Some? ==> m.value in h2.nodes;
      assert Closed(h2.(min := m));
    }
  }
}
