/** What `consolidate` and `shift` do to the heap: merging keeps every
    record's distance and only takes names out of `roots`, and `shift` leaves
    `min` at the first root of least distance. */
module HeapShift {
  import opened Wrappers
  import opened Seqs
  import opened HeapModel
  import HeapClosed
  import opened HeapFacts

  // -------------------------------------------------------- consolidate

  /** One merge of `consolidate` picks its pair from the front of bucket
      `d`: the name with the smaller distance wins, the second one on a tie. */
  lemma MergePairFacts(h: Heap, d: nat)
    requires Closed(h) && d <= DepthMax && |h.cache[d]| >= 2
    ensures var first := h.cache[d][0]; var second := h.cache[d][1];
      var winner := Pair(h, d).0; var loser := Pair(h, d).1;
      && first in h.nodes && second in h.nodes
      && multiset{winner, loser} == multiset{first, second}
      && (h.nodes[first].distance < h.nodes[second].distance ==> winner == first)
      && (h.nodes[second].distance <= h.nodes[first].distance ==> winner == second)
      && h.nodes[winner].distance <= h.nodes[loser].distance
  {
    assert h.cache[d][0] in h.cache[d] && h.cache[d][1] in h.cache[d];
    HeapClosed.BucketKnown(h, d);
  }

  /** One merge: the loser takes the winner as parent and joins the end of
      its children, the winner goes to depth `d + 1`, and no distance and no
      other record changes. */
  lemma MergeStepLinks(h: Heap, d: nat)
    requires Closed(h) && d <= DepthMax && |h.cache[d]| >= 2
    ensures var winner := Pair(h, d).0; var loser := Pair(h, d).1; var r := MergeStep(h, d);
      && r.min == h.min
      && r.nodes.Keys == h.nodes.Keys
      && (forall m :: Distance(r.nodes, m) == Distance(h.nodes, m))
      && r.nodes[loser].parent == Some(winner)
      && r.nodes[winner].depth == d + 1
      && r.nodes[winner].children == h.nodes[winner].children + [loser]
      && (forall m | m in h.nodes && m != winner && m != loser :: r.nodes[m] == h.nodes[m])
  {
    MergePairFacts(h, d);
  }

  /** One merge: the loser leaves `roots` once, both names leave bucket `d`,
      and the winner goes to the end of bucket `d + 1` when there is one. */
  lemma MergeStepLists(h: Heap, d: nat)
    requires Shaped(h) && d <= DepthMax && |h.cache[d]| >= 2
    ensures var winner := Pair(h, d).0; var loser := Pair(h, d).1; var r := MergeStep(h, d);
      && multiset(r.roots) == multiset(h.roots) - multiset{loser}
      && r.cache[d] == h.cache[d][2..]
      && (d < DepthMax ==> r.cache[d + 1] == h.cache[d + 1] + [winner])
      && (forall b :: 0 <= b <= DepthMax && b != d && b != d + 1 ==> r.cache[b] == h.cache[b])
  {
    RemoveFirstCount(h.roots, Pair(h, d).1);
  }

  /** What a run of merges on one bucket keeps: `min`, every record's
      distance, and no name joins `roots`. */
  lemma {:induction false} DrainKeeps(h: Heap, d: nat)
    requires Closed(h) && d <= DepthMax
    ensures var r := Drain(h, d);
      && Closed(r) && r.min == h.min && r.nodes.Keys == h.nodes.Keys
      && (forall m :: Distance(r.nodes, m) == Distance(h.nodes, m))
      && multiset(r.roots) <= multiset(h.roots)
    decreases |h.cache[d]|
  {
    if |h.cache[d]| > 1 {
      MergeStepLinks(h, d);
      MergeStepLists(h, d);
      HeapClosed.MergeStepClosed(h, d);
      DrainKeeps(MergeStep(h, d), d);
    }
  }

  /** The same for the buckets from `d` on. */
  lemma {:induction false} ConsolidateFromKeeps(h: Heap, d: nat)
    requires Closed(h) && d <= DepthMax + 1
    ensures var r := ConsolidateFrom(h, d);
      && Closed(r) && r.min == h.min && r.nodes.Keys == h.nodes.Keys
      && (forall m :: Distance(r.nodes, m) == Distance(h.nodes, m))
      && multiset(r.roots) <= multiset(h.roots)
    decreases DepthMax + 1 - d
  {
    if d <= DepthMax {
      DrainKeeps(h, d);
      ConsolidateFromKeeps(Drain(h, d), d + 1);
    }
  }

  /** `consolidate()` keeps `min` and every distance, only takes names out of
      `roots`, and leaves at most one name in each bucket. */
  lemma ConsolidateFacts(h: Heap)
    requires Closed(h)
    ensures var r := Consolidated(h);
      && Closed(r) && r.min == h.min && r.nodes.Keys == h.nodes.Keys
      && (forall m :: Distance(r.nodes, m) == Distance(h.nodes, m))
      && multiset(r.roots) <= multiset(h.roots)
      && (forall b :: 0 <= b <= DepthMax ==> |r.cache[b]| <= 1)
  {
    ConsolidateFromKeeps(h, 0);
  }

  // -------------------------------------------------------------- shift

  /** Among `roots[..i]`, position `k` holds a recorded name of least
      distance, and no earlier position holds one as close. */
  ghost predicate LeastUpTo(roots: seq<Name>, nodes: map<Name, Entry>, k: int, i: int) {
    && 0 <= k < i <= |roots| && roots[k] in nodes
    && (forall j :: 0 <= j < i ==> !Distance(nodes, roots[j]).Below(Distance(nodes, roots[k])))
    && (forall j :: 0 <= j < k ==> Distance(nodes, roots[k]).Below(Distance(nodes, roots[j])))
  }

  /** Position `k` holds the first root of least distance. */
  ghost predicate FirstLeast(roots: seq<Name>, nodes: map<Name, Entry>, k: int) {
    LeastUpTo(roots, nodes, k, |roots|)
  }

  /** `a < b <= c` on distances. */
  lemma BelowThenBelow(a: Dist, b: Dist, c: Dist)
    requires a.Below(b) && !c.Below(b)
    ensures a.Below(c) && !c.Below(a)
  {
  }

  /** The scan, once it holds the first least root `k` of a prefix, ends with
      the first least root `k'` of the whole sequence. */
  lemma {:induction false} ScanFinds(roots: seq<Name>, nodes: map<Name, Entry>, i: nat, k: int) returns (k': int)
    requires i <= |roots| && LeastUpTo(roots, nodes, k, i)
    ensures FirstLeast(roots, nodes, k')
    ensures ScanFrom(roots, nodes, i, Distance(nodes, roots[k]), Some(roots[k])) == Some(roots[k'])
    decreases |roots| - i
  {
    if i == |roots| {
      return k;
    }
    var dk := Distance(nodes, roots[k]);
    var di := Distance(nodes, roots[i]);
    if di.Below(dk) {
      forall j | 0 <= j < i ensures di.Below(Distance(nodes, roots[j])) && !Distance(nodes, roots[j]).Below(di) {
        BelowThenBelow(di, dk, Distance(nodes, roots[j]));
      }
      assert LeastUpTo(roots, nodes, i, i + 1);
      k' := ScanFinds(roots, nodes, i + 1, i);
    } else {
      assert LeastUpTo(roots, nodes, k, i + 1);
      k' := ScanFinds(roots, nodes, i + 1, k);
    }
  }

  /** The scan from `i` on, where no root has a record, changes nothing. */
  lemma {:induction false} ScanNone(roots: seq<Name>, nodes: map<Name, Entry>, i: nat, lowest: Dist, cur: Option<Name>)
    requires i <= |roots| && forall j :: i <= j < |roots| ==> roots[j] !in nodes
    ensures ScanFrom(roots, nodes, i, lowest, cur) == cur
    decreases |roots| - i
  {
    if i < |roots| {
      ScanNone(roots, nodes, i + 1, lowest, cur);
    }
  }

  /** The scan from `i`, with no recorded root before `i` and the recorded
      root `j0` after it, finds the first least root `k`. */
  lemma {:induction false} ScanFromStart(roots: seq<Name>, nodes: map<Name, Entry>, i: nat, cur: Option<Name>, j0: nat)
    returns (k: int)
    requires i <= j0 < |roots| && roots[j0] in nodes
    requires forall j :: 0 <= j < i ==> roots[j] !in nodes
    ensures FirstLeast(roots, nodes, k) && ScanFrom(roots, nodes, i, Inf, cur) == Some(roots[k])
    decreases |roots| - i
  {
    if roots[i] in nodes {
      assert LeastUpTo(roots, nodes, i, i + 1);
      k := ScanFinds(roots, nodes, i + 1, i);
    } else {
      k := ScanFromStart(roots, nodes, i + 1, cur, j0);
    }
  }

  /** The scan at Dijkstras.js:171-182 picks the first root of least
      distance, and leaves `min` alone when no root has a record. */
  lemma ScanFirstLeast(roots: seq<Name>, nodes: map<Name, Entry>, cur: Option<Name>)
    ensures var r := ScanFrom(roots, nodes, 0, Inf, cur);
      && ((forall j :: 0 <= j < |roots| ==> roots[j] !in nodes) ==> r == cur)
      && ((exists j :: 0 <= j < |roots| && roots[j] in nodes) ==>
            exists k :: FirstLeast(roots, nodes, k) && r == Some(roots[k]))
  {
    if j0 :| 0 <= j0 < |roots| && roots[j0] in nodes {
      var k := ScanFromStart(roots, nodes, 0, cur, j0);
    } else {
      ScanNone(roots, nodes, 0, Inf, cur);
    }
  }

  /** The first least root is least. */
  lemma FirstLeastIsLeast(h: Heap, k: int)
    requires FirstLeast(h.roots, h.nodes, k) && h.min == Some(h.roots[k])
    ensures MinLeast(h)
  {
  }

  /** `shift()` on an empty heap (or one whose `min` is null) clears `min`.
      Otherwise it removes the old minimum, consolidates, keeps every
      distance and then sets `min` to the first root of least distance; when
      no root is left `min` keeps naming the node just removed, so the next
      `shift()` returns that node a second time. In every case `min` ends
      up least among the roots. */
  lemma ShiftFacts(h: Heap)
    requires Closed(h) && Shifted(h).Done?
    ensures var r := Shifted(h).value;
      && Closed(r) && MinLeast(r) && r.nodes.Keys == h.nodes.Keys
      && (forall m :: Distance(r.nodes, m) == Distance(h.nodes, m))
      && ((h.min.None? || h.roots == []) ==> r == h.(min := None))
      && ((h.min.Some? && h.roots != []) ==>
            && (r.roots == [] ==> r.min == h.min)
            && (r.roots != [] ==> exists k :: FirstLeast(r.roots, r.nodes, k) && r.min == Some(r.roots[k])))
  {
    HeapClosed.ShiftedClosed(h);
    if h.min.Some? && h.roots != [] {
      var h1 := Removed(h, h.min.value).value;
      RemoveKeepsDistances(h, h.min.value);
      HeapClosed.RemovedClosed(h, h.min.value);
      ConsolidateFacts(h1);
      var h2 := Consolidated(h1);
      ScanFirstLeast(h2.roots, h2.nodes, h2.min);
      var r := Shifted(h).value;
      assert r == h2.(min := ScanFrom(h2.roots, h2.nodes, 0, Inf, h2.min));
      if r.roots != [] {
        assert r.roots[0] in r.roots;
        var k :| FirstLeast(r.roots, r.nodes, k) && r.min == Some(r.roots[k]);
        FirstLeastIsLeast(r, k);
      }
    }
  }

  /** When the minimum is the only root and has no children, `shift()`
      removes it and consolidates, and leaves `min` naming it. */
  lemma ShiftLastRoot(h: Heap, n: Name)
    requires Closed(h) && h.roots == [n] && h.min == Some(n) && n in h.nodes
    requires h.nodes[n].parent.None? && h.nodes[n].children == [] && h.nodes[n].depth >= 0
    ensures Removed(h, n).Done? && Shifted(h) == Done(Consolidated(Removed(h, n).value))
  {
    RemoveLastRoot(h, n);
  }

  /** Removing the only root, which has no children, and consolidating leaves
      no root and the same `min`. */
  lemma RemoveLastRoot(h: Heap, n: Name)
    requires Closed(h) && h.roots == [n] && h.min == Some(n) && n in h.nodes
    requires h.nodes[n].parent.None? && h.nodes[n].children == [] && h.nodes[n].depth >= 0
    ensures Removed(h, n).Done?
    ensures var h2 := Consolidated(Removed(h, n).value); h2.roots == [] && h2.min == h.min
  {
    RemoveRootFault(h, n);
    RemoveRootRoots(h, n);
    RemoveKeepsDistances(h, n);
    var h1 := Removed(h, n).value;
    assert |multiset(h1.roots)| == 0;
    HeapClosed.RemovedClosed(h, n);
    ConsolidateFacts(h1);
    assert |multiset(Consolidated(h1).roots)| == 0;
  }

  /** With no root left `shift()` clears `min` and changes nothing else. */
  lemma ShiftNoRoots(h: Heap)
    requires Shaped(h) && h.roots == []
    ensures Shifted(h) == Done(h.(min := None))
  {
  }

  /** A heap holding one node `n`, at any distance: `shift()` hands out
      `n` twice, since the first call leaves `min` at `n` and only the
      second clears it. */
  lemma ShiftTwice(n: Name, d: nat)
    ensures var h0 := Added(EmptyHeap(), n, d);
      && h0.min == Some(n)
      && Shifted(h0).Done? && Shifted(h0).value.min == Some(n)
      && Shifted(Shifted(h0).value).Done? && Shifted(Shifted(h0).value).value.min == None
  {
    var h0 := Added(EmptyHeap(), n, d);
    HeapClosed.AddedClosed(EmptyHeap(), n, d);
    ShiftLastRoot(h0, n);
    RemoveLastRoot(h0, n);
    ShiftNoRoots(Shifted(h0).value);
  }
}
