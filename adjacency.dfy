/** The array object `setGraph` fills for one node (`this.graph[nodeName]`,
    Dijkstras.js:65-77): neighbour names mapped to costs, kept in the order
    the names were first written, and the order `for…in` visits them in
    (Dijkstras.js:127): array-index names first, in ascending numeric order,
    then every other name in the order it was first written. */
module Adjacency {
  import opened Wrappers
  import opened Text
  import opened JsInput

  /** Neighbour names and costs, each name at most once, in the order the
      names were first written. */
  type Adj = seq<(string, Value)>

  function Names(adj: Adj): (r: seq<string>)
    ensures |r| == |adj| && forall k :: 0 <= k < |adj| ==> r[k] == adj[k].0
  {
    if adj == [] then [] else [adj[0].0] + Names(adj[1..])
  }

  /** `adj[k]`, or nothing when `k` was never written. */
  function Lookup(adj: Adj, k: string): (r: Option<Value>)
    ensures r.None? <==> k !in Names(adj)
  {
    if adj == [] then None
    else if adj[0].0 == k then Some(adj[0].1)
    else
      assert Names(adj) == [adj[0].0] + Names(adj[1..]);
      Lookup(adj[1..], k)
  }

  /** Every name at most once. */
  ghost predicate Unique(adj: Adj) {
    forall i, j :: 0 <= i < j < |adj| ==> adj[i].0 != adj[j].0
  }

  /** `adj[k] = v`: a name already there keeps its place and takes the new
      cost; a new name goes last. */
  function Put(adj: Adj, k: string, v: Value): (r: Adj)
  {
    if adj == [] then [(k, v)]
    else if adj[0].0 == k then [(k, v)] + adj[1..]
    else [adj[0]] + Put(adj[1..], k, v)
  }

  /** Writing `k` makes it read `v` and leaves every other name as it was;
      the names stay in place, with `k` added last when it is new. */
  lemma {:induction false} PutFacts(adj: Adj, k: string, v: Value)
    ensures Lookup(Put(adj, k, v), k) == Some(v)
    ensures forall j | j != k :: Lookup(Put(adj, k, v), j) == Lookup(adj, j)
    ensures Names(Put(adj, k, v)) == if k in Names(adj) then Names(adj) else Names(adj) + [k]
    decreases |adj|
  {
    if adj != [] && adj[0].0 != k {
      PutFacts(adj[1..], k, v);
      assert Names(adj) == [adj[0].0] + Names(adj[1..]);
      var r := Put(adj, k, v);
      assert r[1..] == Put(adj[1..], k, v);
      forall j | j != k ensures Lookup(r, j) == Lookup(adj, j) {
        if adj[0].0 != j {
          assert Lookup(r, j) == Lookup(r[1..], j);
        }
      }
    } else if adj != [] {
      assert Names(adj) == [k] + Names(adj[1..]);
      var r := Put(adj, k, v);
      forall j | j != k ensures Lookup(r, j) == Lookup(adj, j) {
        assert Lookup(r, j) == Lookup(r[1..], j);
      }
    }
  }

  /** Writing keeps every name at most once. */
  lemma PutUnique(adj: Adj, k: string, v: Value)
    requires Unique(adj)
    ensures Unique(Put(adj, k, v))
  {
    PutFacts(adj, k, v);
    var r := Put(adj, k, v);
    forall i, j | 0 <= i < j < |r| ensures r[i].0 != r[j].0 {
      assert Names(r)[i] == r[i].0 && Names(r)[j] == r[j].0;
      if k in Names(adj) {
        assert Names(adj)[i] == adj[i].0 && Names(adj)[j] == adj[j].0;
      } else {
        if j < |adj| {
          assert Names(adj)[i] == adj[i].0 && Names(adj)[j] == adj[j].0;
        } else {
          assert Names(adj)[i] == adj[i].0;
        }
      }
    }
  }

  // ------------------------------------------------------------ for…in

  /** A name JavaScript treats as an array index: the canonical decimal form
      of a number below 2^32 - 1. */
  predicate IsArrayIndex(k: string) {
    IsDigits(k) && |k| >= 1 && NatToString(ParseNat(k)) == k && ParseNat(k) < 0xFFFF_FFFF
  }

  /** The number a name spells, 0 when it is not all digits. */
  function IndexValue(k: string): nat {
    if IsDigits(k) then ParseNat(k) else 0
  }

  /** The array-index names of `ks`, in order. */
  function IndexNames(ks: seq<string>): (r: seq<string>)
    ensures forall k :: k in r ==> IsArrayIndex(k)
  {
    if ks == [] then []
    else (if IsArrayIndex(ks[0]) then [ks[0]] else []) + IndexNames(ks[1..])
  }

  /** The other names of `ks`, in order. */
  function OtherNames(ks: seq<string>): (r: seq<string>)
    ensures forall k :: k in r ==> !IsArrayIndex(k)
  {
    if ks == [] then []
    else (if IsArrayIndex(ks[0]) then [] else [ks[0]]) + OtherNames(ks[1..])
  }

  /** Names in ascending numeric order. */
  ghost predicate Ascending(ks: seq<string>) {
    forall i, j :: 0 <= i < j < |ks| ==> IndexValue(ks[i]) <= IndexValue(ks[j])
  }

  /** `k` put into the ascending `ks` before the first larger number. */
  function Insert(ks: seq<string>, k: string): (r: seq<string>)
    ensures multiset(r) == multiset(ks) + multiset{k}
  {
    if ks == [] || IndexValue(k) <= IndexValue(ks[0]) then [k] + ks
    else
      assert ks == [ks[0]] + ks[1..];
      [ks[0]] + Insert(ks[1..], k)
  }

  /** Array-index names sorted by their numbers. */
  function Sort(ks: seq<string>): (r: seq<string>)
    ensures multiset(r) == multiset(ks)
  {
    if ks == [] then []
    else
      assert ks == [ks[0]] + ks[1..];
      Insert(Sort(ks[1..]), ks[0])
  }

  /** The order in which `for…in` visits the names of `adj`. */
  function ForIn(adj: Adj): seq<string> {
    Sort(IndexNames(Names(adj))) + OtherNames(Names(adj))
  }

  /** The head of an ascending sequence is no larger than anything after
      it, and the rest is ascending. */
  lemma AscendingHead(ks: seq<string>)
    requires ks != [] && Ascending(ks)
    ensures forall x :: x in ks[1..] ==> IndexValue(ks[0]) <= IndexValue(x)
    ensures Ascending(ks[1..])
  {
    forall x | x in ks[1..] ensures IndexValue(ks[0]) <= IndexValue(x) {
      var m :| 0 <= m < |ks[1..]| && ks[1..][m] == x;
      assert ks[m + 1] == x;
    }
  }

  /** A head no larger than anything in an ascending sequence keeps it
      ascending. */
  lemma AscendingCons(h: string, rest: seq<string>)
    requires Ascending(rest) && forall x :: x in rest ==> IndexValue(h) <= IndexValue(x)
    ensures Ascending([h] + rest)
  {
    var r := [h] + rest;
    forall i, j | 0 <= i < j < |r| ensures IndexValue(r[i]) <= IndexValue(r[j]) {
      assert r[j] == rest[j - 1];
      if i > 0 {
        assert r[i] == rest[i - 1];
      } else {
        assert rest[j - 1] in rest;
      }
    }
  }

  /** Inserting keeps the elements, plus the new one. */
  lemma InsertMembers(ks: seq<string>, k: string)
    ensures forall x :: x in Insert(ks, k) ==> x in ks || x == k
  {
    forall x | x in Insert(ks, k) ensures x in ks || x == k {
      assert x in multiset(Insert(ks, k));
    }
  }

  lemma {:induction false} InsertAscending(ks: seq<string>, k: string)
    requires Ascending(ks)
    ensures Ascending(Insert(ks, k))
    decreases |ks|
  {
    if ks == [] || IndexValue(k) <= IndexValue(ks[0]) {
      AscendingCons(k, ks);
    } else {
      AscendingHead(ks);
      InsertAscending(ks[1..], k);
      InsertMembers(ks[1..], k);
      AscendingCons(ks[0], Insert(ks[1..], k));
    }
  }

  lemma {:induction false} SortAscending(ks: seq<string>)
    ensures Ascending(Sort(ks))
    decreases |ks|
  {
    if ks != [] {
      SortAscending(ks[1..]);
      InsertAscending(Sort(ks[1..]), ks[0]);
    }
  }

  lemma {:induction false} SplitNames(ks: seq<string>)
    ensures multiset(IndexNames(ks)) + multiset(OtherNames(ks)) == multiset(ks)
    decreases |ks|
  {
    if ks != [] {
      SplitNames(ks[1..]);
      assert ks == [ks[0]] + ks[1..];
    }
  }

  /** `for…in` visits every name of `adj` as often as it is there: the
      array-index names first, in ascending numeric order, then the others
      in the order they were first written. */
  lemma ForInOrder(adj: Adj)
    ensures multiset(ForIn(adj)) == multiset(Names(adj))
    ensures forall i, j :: 0 <= i < j < |ForIn(adj)| && IsArrayIndex(ForIn(adj)[j]) ==>
      IsArrayIndex(ForIn(adj)[i]) && IndexValue(ForIn(adj)[i]) <= IndexValue(ForIn(adj)[j])
    ensures var others := OtherNames(Names(adj));
      ForIn(adj)[|ForIn(adj)| - |others|..] == others
  {
    var ix := Sort(IndexNames(Names(adj)));
    var others := OtherNames(Names(adj));
    var f := ForIn(adj);
    SplitNames(Names(adj));
    SortAscending(IndexNames(Names(adj)));
    forall i, j | 0 <= i < j < |f| && IsArrayIndex(f[j])
      ensures IsArrayIndex(f[i]) && IndexValue(f[i]) <= IndexValue(f[j])
    {
      assert f[i] == ix[i] && f[j] == ix[j];
      assert f[i] in multiset(ix);
    }
  }
}
