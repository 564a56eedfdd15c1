/** The state of the Fibonacci-style `MinHeap` of Dijkstras.js as a value, and
    each of its operations as a function from the state before to the state
    after. The class in heap.dfy runs the same operations in place, loop by
    loop, and is proved to agree with these functions; the modules HeapClosed
    and HeapFacts state what the operations do to that state.

    The heap is modelled as the code keeps it, not as a textbook Fibonacci
    heap: children lists go stale, a name can sit twice in `roots` or in one
    depth bucket, and depths can go below zero.

    A record is read through `Rec`, which gives a blank record for a name
    that has none. In JavaScript reading a field of such a name raises a
    TypeError; HeapClosed shows that every operation keeps each name the heap
    mentions backed by a record, so this never happens. */
module HeapModel {
  import opened Wrappers
  import opened Seqs

  /** Node names are JavaScript property keys, i.e. strings. */
  type Name = string

  /** What `getDistance` returns: a finite distance or `Infinity`. */
  datatype Dist = Fin(n: nat) | Inf {
    /** JavaScript's `<` between two such values. */
    predicate Below(other: Dist) {
      match this
      case Inf => false
      case Fin(a) => other.Inf? || a < other.n
    }
  }

  /** One record of `nodes` (Dijkstras.js:236-242). */
  datatype Entry = Entry(distance: nat, depth: int, parent: Option<Name>, children: seq<Name>)

  /** `depthMax`: the highest index of `depthCache`, which has seven buckets. */
  const DepthMax: nat := 6

  /** `min`, `roots`, `nodes` and the buckets of `depthCache`. */
  datatype Heap = Heap(min: Option<Name>, roots: seq<Name>, nodes: map<Name, Entry>, cache: seq<seq<Name>>)

  /** How an operation ends: with a new state, with the TypeError JavaScript
      raises when a negative depth is used as a `depthCache` index, or never
      (a walk up parent links that goes round a cycle). */
  datatype Outcome<+T> = Done(value: T) | Fault | Hang

  /** The record of `x`, or a blank one when there is none. */
  function Rec(nodes: map<Name, Entry>, x: Name): Entry {
    if x in nodes then nodes[x] else Entry(0, 0, None, [])
  }

  /** Seven buckets. */
  predicate Shaped(h: Heap) {
    |h.cache| == DepthMax + 1
  }

  /** Every name in `s` has a record. */
  ghost predicate Known(nodes: map<Name, Entry>, s: seq<Name>) {
    forall y :: y in s ==> y in nodes
  }

  /** Every parent link and every children list names recorded nodes. */
  ghost predicate LinksKnown(nodes: map<Name, Entry>) {
    forall m {:trigger nodes[m]} | m in nodes ::
      (nodes[m].parent.Some? ==> nodes[m].parent.value in nodes) && Known(nodes, nodes[m].children)
  }

  /** Every name the heap mentions has a record, and there are seven buckets. */
  ghost predicate Closed(h: Heap) {
    && Shaped(h)
    && (h.min.Some? ==> h.min.value in h.nodes)
    && Known(h.nodes, h.roots)
    && (forall b :: 0 <= b < |h.cache| ==> Known(h.nodes, h.cache[b]))
    && LinksKnown(h.nodes)
  }

  /** `getDistance` (Dijkstras.js:329-335). */
  function Distance(nodes: map<Name, Entry>, n: Name): (d: Dist)
    ensures d == Inf <==> n !in nodes
    ensures n in nodes ==> d == Fin(nodes[n].distance)
  {
    if n in nodes then Fin(nodes[n].distance) else Inf
  }

  /** A freshly constructed heap (Dijkstras.js:146-152). */
  function EmptyHeap(): (h: Heap)
    ensures Closed(h) && h.min == None && h.roots == [] && h.nodes == map[]
    ensures forall b :: 0 <= b <= DepthMax ==> h.cache[b] == []
  {
    Heap(None, [], map[], seq(DepthMax + 1, _ => []))
  }

  // ---------------------------------------------------------------- add

  /** `add(n, d)` (Dijkstras.js:233-252). */
  function Added(h: Heap, n: Name, d: nat): (r: Heap)
    requires Shaped(h)
    ensures Shaped(r)
  {
    var nodes := h.nodes[n := Entry(d, 0, None, [])];
    var min := if h.min.None? || d < Rec(nodes, h.min.value).distance then Some(n) else h.min;
    Heap(min, h.roots + [n], nodes, h.cache[0 := h.cache[0] + [n]])
  }

  // ------------------------------------------------------------- remove

  /** First step of `remove(n)` (Dijkstras.js:268-278): a node without a parent
      leaves the bucket of its depth. */
  function Unbucketed(h: Heap, n: Name): (r: Outcome<Heap>)
    requires Shaped(h)
    ensures !r.Hang? && (r.Done? ==> Shaped(r.value))
  {
    var e := Rec(h.nodes, n);
    if e.parent.Some? || e.depth > DepthMax then Done(h)
    else if e.depth < 0 then Fault
    else Done(h.(cache := h.cache[e.depth := RemoveFirst(h.cache[e.depth], n)]))
  }

  /** The records after every child in `kids` takes the parent `p`. */
  function Reparented(nodes: map<Name, Entry>, kids: seq<Name>, p: Option<Name>): map<Name, Entry> {
    map m | m in nodes :: if m in kids then nodes[m].(parent := p) else nodes[m]
  }

  /** The names in `kids` whose depth is `b`, in order. */
  function AtDepth(nodes: map<Name, Entry>, kids: seq<Name>, b: int): seq<Name>
    decreases |kids|
  {
    if kids == [] then []
    else (if Rec(nodes, kids[0]).depth == b then [kids[0]] else []) + AtDepth(nodes, kids[1..], b)
  }

  /** Some name in `kids` has a negative depth. */
  predicate SomeNegative(nodes: map<Name, Entry>, kids: seq<Name>) {
    exists k :: 0 <= k < |kids| && Rec(nodes, kids[k]).depth < 0
  }

  /** The loop over the children at Dijkstras.js:283-298: each child takes
      the removed node's parent `p`, becomes a root when `p` is null, and is
      pushed onto the bucket of its depth; a child with a negative depth makes
      `depthCache[depth]` undefined and the push raises a TypeError. */
  function Promoted(h: Heap, kids: seq<Name>, p: Option<Name>): (r: Outcome<Heap>)
    requires Shaped(h)
    ensures !r.Hang? && (r.Done? ==> Shaped(r.value))
  {
    if SomeNegative(h.nodes, kids) then Fault
    else
      var cache := seq(DepthMax + 1, b requires 0 <= b <= DepthMax => h.cache[b] + AtDepth(h.nodes, kids, b));
      Done(Heap(h.min, if p.None? then h.roots + kids else h.roots, Reparented(h.nodes, kids, p), cache))
  }

  /** The names the walk at Dijkstras.js:312-318 visits from `p`: up the
      parent links to a name without parent, or `fuel` names if it has not
      got there by then. */
  function Ancestors(nodes: map<Name, Entry>, p: Name, fuel: nat): (s: seq<Name>)
    ensures |s| <= fuel && (fuel > 0 ==> |s| > 0 && s[0] == p)
    decreases fuel
  {
    if fuel == 0 then []
    else
      match Rec(nodes, p).parent
      case None => [p]
      case Some(q) => [p] + Ancestors(nodes, q, fuel - 1)
  }

  /** The records after every name in `s` has lost one depth. */
  function Lowered(nodes: map<Name, Entry>, s: seq<Name>): map<Name, Entry> {
    map m | m in nodes :: if m in s then nodes[m].(depth := nodes[m].depth - 1) else nodes[m]
  }

  /** Last step of `remove(n)` for a node with parent `p` (Dijkstras.js:307-325):
      every ancestor loses one depth and the topmost one is pushed onto the
      bucket of its new depth. A walk still going after as many names as
      there are records has revisited one and goes round forever. (With no
      records at all `p` is unknown; that case never arises.) */
  function Lifted(h: Heap, p: Name): (r: Outcome<Heap>)
    requires Shaped(h)
    ensures r.Done? ==> Shaped(r.value)
  {
    var s := Ancestors(h.nodes, p, |h.nodes|);
    if s == [] then Done(h)
    else
      var top := s[|s| - 1];
      if Rec(h.nodes, top).parent.Some? then Hang
      else
        var nodes := Lowered(h.nodes, s);
        var depth := Rec(nodes, top).depth;
        if depth > DepthMax then Done(h.(nodes := nodes))
        else if depth < 0 then Fault
        else Done(h.(nodes := nodes, cache := h.cache[depth := h.cache[depth] + [top]]))
  }

  /** The rest of `remove(n)` once `n`, whose record is `e`, has left its
      bucket (Dijkstras.js:280-326): the children take its parent, then
      either `n` leaves `roots` or the walk up from its parent runs. */
  function Relinked(h: Heap, n: Name, e: Entry): (r: Outcome<Heap>)
    requires Shaped(h)
    ensures r.Done? ==> Shaped(r.value)
  {
    match Promoted(h, e.children, e.parent)
    case Fault => Fault
    case Hang => Hang
    case Done(h2) =>
      if e.parent.None? then Done(h2.(roots := RemoveFirst(h2.roots, n)))
      else Lifted(h2, e.parent.value)
  }

  /** `remove(n)` (Dijkstras.js:260-327). */
  function Removed(h: Heap, n: Name): (r: Outcome<Heap>)
    requires Shaped(h)
    ensures r.Done? ==> Shaped(r.value)
  {
    if n !in h.nodes then Done(h)
    else
      match Unbucketed(h, n)
      case Fault => Fault
      case Hang => Hang
      case Done(h1) => Relinked(h1, n, h.nodes[n])
  }

  // ------------------------------------------------------------- update

  /** `update(n, d)` (Dijkstras.js:254-258): `remove` then `add`. */
  function Updated(h: Heap, n: Name, d: nat): (r: Outcome<Heap>)
    requires Shaped(h)
    ensures r.Done? ==> Shaped(r.value)
  {
    match Removed(h, n)
    case Done(h1) => Done(Added(h1, n, d))
    case Fault => Fault
    case Hang => Hang
  }

  // -------------------------------------------------------- consolidate

  /** The two names `consolidate` takes from the front of bucket `d`, winner
      first: the first wins when its distance is strictly smaller, otherwise
      the second does (Dijkstras.js:196-199, 207-209). */
  function Pair(h: Heap, d: nat): (Name, Name)
    requires Shaped(h) && d <= DepthMax && |h.cache[d]| >= 2
  {
    var first := h.cache[d][0];
    var second := h.cache[d][1];
    if Rec(h.nodes, first).distance < Rec(h.nodes, second).distance then (first, second) else (second, first)
  }

  /** The records after `winner` adopts `loser` at depth `d`
      (Dijkstras.js:201-203 and 213-215). */
  function Adopted(nodes: map<Name, Entry>, winner: Name, loser: Name, d: nat): map<Name, Entry> {
    var w := Rec(nodes, winner);
    var nodes1 := nodes[winner := w.(depth := d + 1, children := w.children + [loser])];
    nodes1[loser := Rec(nodes1, loser).(parent := Some(winner))]
  }

  /** One pass of the loop at Dijkstras.js:193-229 on bucket `d`: the first two
      names leave the bucket, the winner adopts the loser and goes one bucket
      up when there is one, and the loser leaves `roots`. */
  function MergeStep(h: Heap, d: nat): (r: Heap)
    requires Shaped(h) && d <= DepthMax && |h.cache[d]| >= 2
    ensures Shaped(r) && |r.cache[d]| == |h.cache[d]| - 2
    ensures forall b :: 0 <= b < d ==> r.cache[b] == h.cache[b]
  {
    var (winner, loser) := Pair(h, d);
    var cache1 := h.cache[d := h.cache[d][2..]];
    var cache := if d + 1 <= DepthMax then cache1[d + 1 := cache1[d + 1] + [winner]] else cache1;
    Heap(h.min, RemoveFirst(h.roots, loser), Adopted(h.nodes, winner, loser, d), cache)
  }

  /** The inner `while` at Dijkstras.js:193: merge until bucket `d` holds at
      most one name. */
  function Drain(h: Heap, d: nat): (r: Heap)
    requires Shaped(h) && d <= DepthMax
    ensures Shaped(r) && |r.cache[d]| <= 1
    ensures forall b :: 0 <= b < d ==> r.cache[b] == h.cache[b]
    decreases |h.cache[d]|
  {
    if |h.cache[d]| <= 1 then h else Drain(MergeStep(h, d), d)
  }

  /** The outer `for` at Dijkstras.js:192, from bucket `d` on. */
  function ConsolidateFrom(h: Heap, d: nat): (r: Heap)
    requires Shaped(h) && d <= DepthMax + 1
    ensures Shaped(r)
    ensures forall b :: 0 <= b < d ==> r.cache[b] == h.cache[b]
    ensures forall b :: d <= b <= DepthMax ==> |r.cache[b]| <= 1
    decreases DepthMax + 1 - d
  {
    if d == DepthMax + 1 then h
    else
      var h1 := Drain(h, d);
      assert |h1.cache[d]| <= 1;
      ConsolidateFrom(h1, d + 1)
  }

  /** `consolidate()` (Dijkstras.js:187-231): on return every bucket holds at
      most one name. */
  function Consolidated(h: Heap): (r: Heap)
    requires Shaped(h)
    ensures Shaped(r)
    ensures forall b :: 0 <= b <= DepthMax ==> |r.cache[b]| <= 1
  {
    ConsolidateFrom(h, 0)
  }

  // -------------------------------------------------------------- shift

  /** The scan at Dijkstras.js:171-182 from position `i` on: `lowest` is the
      smallest distance seen so far and `cur` the current `min`. */
  function ScanFrom(roots: seq<Name>, nodes: map<Name, Entry>, i: nat, lowest: Dist, cur: Option<Name>): (r: Option<Name>)
    requires i <= |roots|
    ensures r == cur || (r.Some? && r.value in roots[i..])
    decreases |roots| - i
  {
    if i == |roots| then cur
    else
      var dist := Distance(nodes, roots[i]);
      if dist.Below(lowest) then ScanFrom(roots, nodes, i + 1, dist, Some(roots[i]))
      else ScanFrom(roots, nodes, i + 1, lowest, cur)
  }

  /** The state `shift()` (Dijkstras.js:154-185) leaves; it returns the `min`
      it started with in every case. */
  function Shifted(h: Heap): (r: Outcome<Heap>)
    requires Shaped(h)
    ensures r.Done? ==> Shaped(r.value)
  {
    if h.min.None? || |h.roots| < 1 then Done(h.(min := None))
    else
      match Removed(h, h.min.value)
      case Done(h1) =>
        var h2 := Consolidated(h1);
        Done(h2.(min := ScanFrom(h2.roots, h2.nodes, 0, Inf, h2.min)))
      case Fault => Fault
      case Hang => Hang
  }
}
