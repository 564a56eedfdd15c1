/** The walk up the parent links in `remove` (Dijkstras.js:309-318): it
    either reaches a node without parent, having visited each name once, or
    it goes round a cycle of parent links and never returns. */
module HeapWalk {
  import opened Wrappers
  import opened Seqs
  import opened HeapModel
  import HeapClosed

  /** `s` follows parent links: the parent of each name is the next one. */
  ghost predicate IsChain(nodes: map<Name, Entry>, s: seq<Name>) {
    forall k :: 0 < k < |s| ==> Rec(nodes, s[k - 1]).parent == Some(s[k])
  }

  /** The walk follows parent links. */
  lemma {:induction false} AncestorsChain(nodes: map<Name, Entry>, p: Name, fuel: nat)
    ensures IsChain(nodes, Ancestors(nodes, p, fuel))
    decreases fuel
  {
    if fuel > 0 && Rec(nodes, p).parent.Some? {
      var q := Rec(nodes, p).parent.value;
      AncestorsChain(nodes, q, fuel - 1);
      var rest := Ancestors(nodes, q, fuel - 1);
      var s := [p] + rest;
      forall k | 0 < k < |s| ensures Rec(nodes, s[k - 1]).parent == Some(s[k]) {
        assert s[k] == rest[k - 1];
        if k > 1 {
          assert s[k - 1] == rest[k - 2];
        }
      }
    }
  }

  /** One link of the walk. */
  lemma AncestorsNext(nodes: map<Name, Entry>, p: Name, fuel: nat, k: nat)
    requires 0 < k < |Ancestors(nodes, p, fuel)|
    ensures var s := Ancestors(nodes, p, fuel); Rec(nodes, s[k - 1]).parent == Some(s[k])
  {
    AncestorsChain(nodes, p, fuel);
  }

  /** The walk stops short of its fuel only at a name without parent. */
  lemma {:induction false} AncestorsEnd(nodes: map<Name, Entry>, p: Name, fuel: nat)
    requires fuel > 0
    ensures var s := Ancestors(nodes, p, fuel);
      Rec(nodes, s[|s| - 1]).parent.Some? ==> |s| == fuel
    decreases fuel
  {
    if fuel > 1 && Rec(nodes, p).parent.Some? {
      var q := Rec(nodes, p).parent.value;
      AncestorsEnd(nodes, q, fuel - 1);
      var rest := Ancestors(nodes, q, fuel - 1);
      assert ([p] + rest)[|rest|] == rest[|rest| - 1];
    }
  }

  /** One more unit of fuel: a walk that has ended stays as it is, and one
      whose last name has a parent goes on to that parent. */
  lemma {:induction false} AncestorsMore(nodes: map<Name, Entry>, p: Name, fuel: nat)
    requires fuel > 0
    ensures var s := Ancestors(nodes, p, fuel); var last := s[|s| - 1];
      Ancestors(nodes, p, fuel + 1) ==
        if Rec(nodes, last).parent.None? then s else s + [Rec(nodes, last).parent.value]
    decreases fuel
  {
    if Rec(nodes, p).parent.Some? {
      var q := Rec(nodes, p).parent.value;
      var rest := Ancestors(nodes, q, fuel - 1);
      assert Ancestors(nodes, p, fuel) == [p] + rest;
      assert Ancestors(nodes, p, fuel + 1) == [p] + Ancestors(nodes, q, fuel);
      if fuel == 1 {
        assert rest == [];
      } else {
        AncestorsMore(nodes, q, fuel - 1);
        var last := rest[|rest| - 1];
        assert ([p] + rest)[|rest|] == last;
        if Rec(nodes, last).parent.Some? {
          var x := Rec(nodes, last).parent.value;
          assert [p] + (rest + [x]) == ([p] + rest) + [x];
        }
      }
    }
  }

  /** A chain that ends at a name without parent has no repeats: were a
      name repeated, the links after it would repeat too and the chain
      could not end. */
  lemma ChainToRootDistinct(nodes: map<Name, Entry>, s: seq<Name>)
    requires IsChain(nodes, s) && |s| > 0 && Rec(nodes, s[|s| - 1]).parent.None?
    ensures Distinct(s)
  {
    forall i, j | 0 <= i < j < |s| ensures s[i] != s[j] {
      NoRepeatAt(nodes, s, i, j);
    }
  }

  lemma {:induction false} NoRepeatAt(nodes: map<Name, Entry>, s: seq<Name>, i: nat, j: nat)
    requires IsChain(nodes, s) && |s| > 0 && Rec(nodes, s[|s| - 1]).parent.None?
    requires i < j < |s|
    ensures s[i] != s[j]
    decreases |s| - j
  {
    if s[i] == s[j] {
      assert Rec(nodes, s[i]).parent == Some(s[i + 1]);
      if j + 1 < |s| {
        assert Rec(nodes, s[j]).parent == Some(s[j + 1]);
        NoRepeatAt(nodes, s, i + 1, j + 1);
      }
    }
  }

  /** In a sequence without repeats each name occurs at most once. */
  lemma {:induction false} DistinctCount(s: seq<Name>, m: Name)
    requires Distinct(s)
    ensures Count(s, m) == if m in s then 1 else 0
  {
    if s != [] {
      var rest := s[1..];
      assert s == [s[0]] + rest;
      assert multiset(s) == multiset{s[0]} + multiset(rest);
      assert Distinct(rest) by {
        forall i, j | 0 <= i < j < |rest| ensures rest[i] != rest[j] {
          assert rest[i] == s[i + 1] && rest[j] == s[j + 1];
        }
      }
      DistinctCount(rest, m);
      if s[0] == m {
        assert m !in rest by {
          forall k | 0 <= k < |rest| ensures rest[k] != m {
            assert rest[k] == s[k + 1];
          }
        }
      }
    }
  }

  /** A walk that ends lowers each name it visits by one, which is one
      decrement per visit because it visits no name twice. */
  lemma LoweredCounts(nodes: map<Name, Entry>, s: seq<Name>)
    requires Distinct(s)
    ensures forall m | m in nodes :: Lowered(nodes, s)[m].depth == nodes[m].depth - Count(s, m)
  {
    forall m | m in nodes ensures Lowered(nodes, s)[m].depth == nodes[m].depth - Count(s, m) {
      DistinctCount(s, m);
    }
  }

  /** The walk of `remove` from `p` hangs exactly when its last name, after
      as many steps as there are records, still has a parent. */
  lemma LiftedHangAt(h: Heap, p: Name)
    requires Shaped(h) && p in h.nodes
    ensures var s := Ancestors(h.nodes, p, |h.nodes|);
      Lifted(h, p).Hang? <==> Rec(h.nodes, s[|s| - 1]).parent.Some?
  {
  }

  /** A walk that has reached a name without parent has no repeats, however
      much more fuel it is given. */
  lemma WalkEndedDistinct(nodes: map<Name, Entry>, p: Name, fuel: nat)
    requires fuel > 0
    requires var s := Ancestors(nodes, p, fuel); Rec(nodes, s[|s| - 1]).parent.None?
    ensures Distinct(Ancestors(nodes, p, fuel + 1))
  {
    AncestorsMore(nodes, p, fuel);
    AncestorsChain(nodes, p, fuel);
    ChainToRootDistinct(nodes, Ancestors(nodes, p, fuel));
  }

  /** A sequence of known names longer than the number of records repeats
      a name. */
  lemma LongRepeats(nodes: map<Name, Entry>, t: seq<Name>)
    requires Known(nodes, t) && |t| > |nodes|
    ensures !Distinct(t)
  {
    forall k | 0 <= k < |t| ensures t[k] in nodes.Keys {
      assert t[k] in t;
    }
    assert |nodes.Keys| == |nodes|;
    Pigeonhole(t, nodes.Keys);
  }

  /** A walk that has used up its fuel without reaching a name without
      parent takes one more step when given one more unit of fuel. */
  lemma WalkOnLength(nodes: map<Name, Entry>, p: Name, fuel: nat)
    requires fuel > 0
    requires var s := Ancestors(nodes, p, fuel); Rec(nodes, s[|s| - 1]).parent.Some?
    ensures |Ancestors(nodes, p, fuel + 1)| == fuel + 1
  {
    var s := Ancestors(nodes, p, fuel);
    AncestorsEnd(nodes, p, fuel);
    assert |s| == fuel;
    AncestorsMore(nodes, p, fuel);
    assert Ancestors(nodes, p, fuel + 1) == s + [Rec(nodes, s[|s| - 1]).parent.value];
  }

  /** Such a walk then repeats a name. */
  lemma WalkOnRepeats(nodes: map<Name, Entry>, p: Name)
    requires p in nodes && LinksKnown(nodes)
    requires var s := Ancestors(nodes, p, |nodes|); Rec(nodes, s[|s| - 1]).parent.Some?
    ensures !Distinct(Ancestors(nodes, p, |nodes| + 1))
  {
    var size := |nodes|;
    assert size > 0 by { assert p in nodes.Keys; }
    WalkOnLength(nodes, p, size);
    var t := Ancestors(nodes, p, size + 1);
    HeapClosed.AncestorsKnown(nodes, p, size + 1);
    LongRepeats(nodes, t);
  }

  /** A walk that hangs repeats a name. */
  lemma LiftedHangRepeats(h: Heap, p: Name)
    requires Shaped(h) && p in h.nodes && LinksKnown(h.nodes) && Lifted(h, p).Hang?
    ensures !Distinct(Ancestors(h.nodes, p, |h.nodes| + 1))
  {
    LiftedHangAt(h, p);
    WalkOnRepeats(h.nodes, p);
  }

  /** A walk that ends repeats no name. */
  lemma LiftedEndsDistinct(h: Heap, p: Name)
    requires Shaped(h) && p in h.nodes && !Lifted(h, p).Hang?
    ensures Distinct(Ancestors(h.nodes, p, |h.nodes| + 1))
  {
    LiftedHangAt(h, p);
    WalkEndedDistinct(h.nodes, p, |h.nodes|);
  }

  /** The walk of `remove` from the parent `p` of the removed node hangs
      exactly when the walk, given one more step than there are records,
      visits some name twice: it then goes round that cycle forever, since
      the walk only changes depths and never a parent link. */
  lemma LiftedHangIffRepeat(h: Heap, p: Name)
    requires Shaped(h) && p in h.nodes && LinksKnown(h.nodes)
    ensures Lifted(h, p).Hang? <==> !Distinct(Ancestors(h.nodes, p, |h.nodes| + 1))
  {
    if Lifted(h, p).Hang? {
      LiftedHangRepeats(h, p);
    } else {
      LiftedEndsDistinct(h, p);
    }
  }
}
