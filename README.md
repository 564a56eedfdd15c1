# Dijkstras.js in Dafny

A model of the `Dijkstras` shortest-path class of `Dijkstras.js` and of the
benchmark's grid generator `benchmark/graphgenerator.js`. It has three parts.

- **`Dijkstras`**. `setGraph` reads an array of `[name, [[neighbour, cost], …]]`
  entries into `this.graph`. `getPath(source, target)` runs Dijkstra's
  relaxation loop over a fresh `MinHeap`. It then rebuilds the path from the
  `previous` links. The model is a class with the same fields
  (`dijkstra.dfy`). The input checks of `setGraph` and the graph they build
  are functions in `graphinput.dfy`. The neighbour lists, with JavaScript's
  `for…in` order, are in `adjacency.dfy`.
- **`MinHeap`**. This is the private heap of `Dijkstras.js`: `add`, `update`,
  `remove`, `consolidate`, `shift` and `getDistance`. It works over a table
  of node records, a list of roots, seven depth buckets and a `min` pointer.
  - `heapmodel.dfy` states each operation as a function from the heap state
    before to the state after. The result can also be a JavaScript
    TypeError (a negative depth indexes a missing bucket) or a walk that
    never ends.
  - `heap.dfy` is the class. Its methods change the fields in place, loop by
    loop, and are proved to leave exactly the state those functions compute.
  - `heapclosed.dfy`, `heapwalk.dfy`, `heapfacts.dfy` and `heapshift.dfy`
    prove what each operation does:
    - every name the heap mentions keeps a record;
    - `remove` keeps every distance;
    - `shift` points `min` at the first root of least distance;
    - the walk in `remove` goes round exactly when the parent links repeat
      a name.
- **`generateGraph(x, y)`** (`gridgen.dfy`). It builds an `x` by `y` grid of
  cells named `i + 'x' + j`, each linked at cost 1 to its neighbours. The
  model states its result and proves it is a graph `setGraph` accepts. It
  also records where the neighbour lists as written leave the grid (see
  "## Findings").

The heap is modelled as the code keeps it, not as a textbook Fibonacci heap:
- `remove` leaves the removed node's record in `nodes`, so `getDistance`
  still reports its old distance;
- children lists go stale;
- a name can sit twice in `roots` or in a bucket;
- `update` is always `remove` followed by `add`;
- after a `shift` that leaves no roots, `min` still names the node it just
  handed out (`HeapShift.ShiftTwice`). `getPath` then takes that node once
  more.

`getPath` keeps `previous` from one call to the next. The comment at
Dijkstras.js:104 says "Reset", but the code only sets `previous[source]`.
The model follows the code.

Where the JavaScript would loop forever, the model stops with an explicit
outcome:
- a parent walk in `remove` that goes round: `Hang`, reported as `HeapCycle`;
- a `previous` walk in the path rebuild that goes round: `PathCycle`.

Separately, the main loop of `getPath` runs for at most `fuel` passes. When
the fuel runs out, the model returns `FuelExhausted`, whether or not the
JavaScript loop would have ended later.

Values passed in from JavaScript are the datatype `JsInput.Value`: numbers
(naturals), strings and arrays. Property keys are strings, obtained through
`JsInput.Key`.

## Model

| member | source | states |
|---|---|---|
| JsInput.Key | Dijkstras.js:65-77 | a number used as a property key becomes a string of digits without a leading zero that reads back as the number; a string stays itself |
| Text.NatToString | benchmark/graphgenerator.js:9 | a number renders as digits without leading zeros and without the letter x |
| Text.NatToStringInjective | benchmark/graphgenerator.js:9 | two numbers render alike exactly when they are equal |
| Seqs.IndexOf | Dijkstras.js:273 | `indexOf` gives -1 exactly when the value is absent, otherwise the position of its first occurrence |
| Seqs.RemoveFirst | Dijkstras.js:273-276 | `indexOf` then `splice(pos, 1)` drops one occurrence when there is one and leaves the list alone when there is none |
| Seqs.RemoveFirstCount | Dijkstras.js:303-306 | dropping the first occurrence removes exactly one copy of the value from the multiset |
| Seqs.Pigeonhole | Dijkstras.js:115-118 | a walk longer than the set of names it visits repeats a name |
| Adjacency.Lookup | Dijkstras.js:130 | `graph[u][v]` is undefined exactly when `v` is not a neighbour name of `u` |
| Adjacency.PutFacts | Dijkstras.js:77 | after `adj[k] = v`, `k` reads `v`, every other name reads what it read before, and a new name goes last |
| Adjacency.PutUnique | Dijkstras.js:77 | the assignment never makes a neighbour name appear twice |
| Adjacency.Insert | Dijkstras.js:127 | inserting adds exactly one copy of the name |
| Adjacency.Sort | Dijkstras.js:127 | sorting the index-like names is a permutation of them |
| Adjacency.SortAscending | Dijkstras.js:127 | the sorted index-like names are in ascending numeric order |
| Adjacency.ForInOrder | Dijkstras.js:127 | `for…in` visits every neighbour name once, array-index names first in ascending numeric order, then the other names in insertion order |
| GraphInput.Listed | Dijkstras.js:69-70 | `for (v in vertices)` visits an array's elements, nothing for a number, and one non-pair per character for a string |
| GraphInput.LoadedOk | Dijkstras.js:47-80 | `setGraph` throws nothing exactly when the input is a non-empty array whose every entry and every vertex is a two-element array |
| GraphInput.NodesError | Dijkstras.js:58-64 | the outer loop succeeds exactly when every entry is well formed, and otherwise throws at the first bad entry or bad vertex |
| GraphInput.VerticesError | Dijkstras.js:69-74 | the inner loop throws exactly when some vertex is not a pair, and then at the first such vertex |
| GraphInput.LoadedErrorKeeps | Dijkstras.js:58-78 | a throw leaves the graph as written by the entries before the bad one, plus the bad entry's vertices before the bad vertex |
| GraphInput.NodesKeys | Dijkstras.js:66-67 | a successful load has the old names plus every entry's name |
| GraphInput.NodesLast | Dijkstras.js:66-67 | a name takes the neighbour list of the last entry that names it |
| GraphInput.NodesUntouched | Dijkstras.js:58-79 | a name no entry mentions keeps its old neighbour list |
| GraphInput.OneNode | Dijkstras.js:65-68 | a well-formed entry replaces its name's neighbour list with a fresh one, then the loop goes on |
| GraphInput.NodesPrefix | Dijkstras.js:58-79 | loading a prefix of the entries, then the rest, equals loading all of them |
| GraphInput.VerticesLast | Dijkstras.js:75-77 | a neighbour takes the cost of the last vertex that names it |
| GraphInput.VerticesUntouched | Dijkstras.js:69-78 | a neighbour name no vertex mentions keeps its cost |
| GraphInput.VerticesUnique | Dijkstras.js:69-78 | the inner loop never duplicates a neighbour name |
| GraphInput.VerticesPrefix | Dijkstras.js:69-78 | loading a prefix of the vertices, then the rest, equals loading all of them |
| HeapModel.Distance | Dijkstras.js:329-335 | `getDistance` is Infinity exactly for a name without a record, and the stored distance otherwise |
| HeapModel.EmptyHeap | Dijkstras.js:146-152 | a new heap has no min, no roots, no records and seven empty buckets |
| HeapModel.Added | Dijkstras.js:233-252 | `add` keeps the heap's shape: seven buckets |
| HeapModel.Unbucketed | Dijkstras.js:268-278 | taking a parentless node out of its bucket never hangs, and keeps the shape unless it raises |
| HeapModel.Promoted | Dijkstras.js:281-299 | moving the children up never hangs, and keeps the shape unless it raises |
| HeapModel.Ancestors | Dijkstras.js:309-318 | the walk from `p` starts at `p` and visits at most `fuel` names |
| HeapModel.Lifted | Dijkstras.js:307-325 | the walk up from the parent keeps the heap's shape when it ends |
| HeapModel.Relinked | Dijkstras.js:280-326 | the second half of `remove` keeps the heap's shape when it ends |
| HeapModel.Removed | Dijkstras.js:260-327 | `remove` keeps the heap's shape when it ends |
| HeapModel.Updated | Dijkstras.js:254-258 | `update` keeps the heap's shape when it ends |
| HeapModel.MergeStep | Dijkstras.js:193-228 | one merge takes two names off the bucket and leaves the lower buckets alone |
| HeapModel.Drain | Dijkstras.js:193-229 | the inner loop leaves at most one name in its bucket and the lower buckets alone |
| HeapModel.ConsolidateFrom | Dijkstras.js:192-230 | the outer loop leaves at most one name in every bucket from `d` on and the buckets below alone |
| HeapModel.Consolidated | Dijkstras.js:187-231 | after `consolidate` every bucket holds at most one name |
| HeapModel.ScanFrom | Dijkstras.js:171-182 | the scan keeps the current candidate or picks one of the remaining roots |
| HeapModel.Shifted | Dijkstras.js:154-185 | `shift` keeps the heap's shape when it ends |
| Heap.MinHeap.constructor | Dijkstras.js:146-152 | the new heap's state is the empty heap |
| Heap.MinHeap.GetDistance | Dijkstras.js:329-335 | Infinity exactly for a name without a record, and the stored distance otherwise |
| Heap.MinHeap.Add | Dijkstras.js:233-252 | the new state is `Added` of the old state |
| Heap.MinHeap.PromoteChild | Dijkstras.js:284-297 | one child takes the parent, joins the roots when there is no parent, and joins its depth's bucket, or raises on a negative depth |
| Heap.MinHeap.PromoteChildren | Dijkstras.js:281-299 | the children loop raises exactly when `Promoted` does and otherwise leaves its state |
| Heap.MinHeap.LowerDepth | Dijkstras.js:316-317 | one step lowers one depth and moves to that record's parent |
| Heap.MinHeap.WalkUp | Dijkstras.js:312-318 | the walk lowers the depth of each name on the parent chain from `p` once, for at most as many steps as there are records, and reports the last name met and whether it still has a parent |
| Heap.MinHeap.Climb | Dijkstras.js:307-325 | the walk ends exactly when `Lifted` does, raises exactly when it does, and otherwise leaves its state |
| Heap.MinHeap.Unbucket | Dijkstras.js:268-278 | raises exactly when `Unbucketed` does and otherwise leaves its state |
| Heap.MinHeap.Relink | Dijkstras.js:280-326 | ends exactly when `Relinked` does and otherwise leaves its state |
| Heap.MinHeap.DropFromBucket | Dijkstras.js:272-276 | the first occurrence of the name leaves its bucket, and nothing else changes |
| Heap.MinHeap.Remove | Dijkstras.js:260-327 | ends and raises exactly when `Removed` does, and otherwise leaves its state |
| Heap.MinHeap.Update | Dijkstras.js:254-258 | ends and raises exactly when `Updated` does, and otherwise leaves its state |
| Heap.MinHeap.Adopt | Dijkstras.js:200-228 | the winner adopts the loser one depth up, the loser leaves the roots, and the winner joins the next bucket |
| Heap.MinHeap.MergeFront | Dijkstras.js:195-228 | one pass of the merge loop leaves `MergeStep` of the old state |
| Heap.MinHeap.Consolidate | Dijkstras.js:187-231 | the new state is `Consolidated` of the old state |
| Heap.MinHeap.Shift | Dijkstras.js:154-185 | returns the old `min`, and ends and raises exactly when `Shifted` does, otherwise leaving its state |
| HeapClosed.AddedClosed | Dijkstras.js:233-252 | `add` keeps every name the heap mentions backed by a record |
| HeapClosed.UnbucketedClosed | Dijkstras.js:268-278 | leaving the bucket keeps every mentioned name backed by a record |
| HeapClosed.PromotedClosed | Dijkstras.js:281-299 | moving children up keeps every mentioned name backed by a record |
| HeapClosed.LiftedShape | Dijkstras.js:307-325 | the walk lowers the depths along the ancestor chain and files its top in that depth's bucket, and nothing else |
| HeapClosed.LiftedClosed | Dijkstras.js:307-325 | the walk keeps every mentioned name backed by a record |
| HeapClosed.RemovedClosed | Dijkstras.js:260-327 | `remove` keeps every mentioned name backed by a record and keeps the set of records |
| HeapClosed.UpdatedClosed | Dijkstras.js:254-258 | `update` keeps every mentioned name backed by a record |
| HeapClosed.MergeStepClosed | Dijkstras.js:195-228 | one merge keeps every mentioned name backed by a record |
| HeapClosed.DrainClosed | Dijkstras.js:193-229 | the inner loop keeps every mentioned name backed by a record |
| HeapClosed.ConsolidateFromClosed | Dijkstras.js:192-230 | the outer loop keeps every mentioned name backed by a record |
| HeapClosed.ShiftedClosed | Dijkstras.js:154-185 | `shift` keeps every mentioned name backed by a record |
| HeapWalk.ChainToRootDistinct | Dijkstras.js:312-318 | a chain of parent links that reaches a parentless name visits no name twice |
| HeapWalk.LongRepeats | Dijkstras.js:312-318 | a walk over records longer than the number of records repeats a name |
| HeapWalk.LiftedHangAt | Dijkstras.js:312-318 | the walk fails to end exactly when its last name still has a parent |
| HeapWalk.LiftedHangIffRepeat | Dijkstras.js:312-318 | the `while (nextParent)` loop runs forever exactly when the parent chain repeats a name |
| HeapFacts.AddFacts | Dijkstras.js:233-252 | `add` stores a fresh record, changes no other distance, appends to the roots and bucket 0, and moves `min` exactly when there was none or the new distance is strictly smaller |
| HeapFacts.AddKeepsMinLeast | Dijkstras.js:244-247 | when `min` was no farther than any root and the new distance does not raise the name's old distance, after `add` there is a `min` and it is still no farther than any root |
| HeapFacts.RemoveUnknown | Dijkstras.js:262-264 | removing a name without a record changes nothing |
| HeapFacts.RemovedSteps | Dijkstras.js:260-327 | `remove` leaves the bucket, moves the children up, then either drops the name from the roots or walks up from its parent |
| HeapFacts.RemoveKeepsDistances | Dijkstras.js:260-327 | `remove` keeps every record, so every distance, and `min` |
| HeapFacts.AtDepthMembers | Dijkstras.js:294-297 | the children that join bucket `b` are exactly those of depth `b` |
| HeapFacts.PromotedFacts | Dijkstras.js:281-299 | moving children up raises exactly when some child has a negative depth; otherwise each child takes the parent and its depth's bucket, and they join the roots only when there is no parent |
| HeapFacts.RemoveRootFault | Dijkstras.js:268-306 | removing a root raises exactly when its depth or a child's depth is negative, and never hangs |
| HeapFacts.RemoveRootRoots | Dijkstras.js:288-306 | removing a root swaps it for its children in the roots |
| HeapFacts.RemoveRootLinks | Dijkstras.js:281-299 | removing a root orphans its children and changes no depth |
| HeapFacts.RemoveRootBuckets | Dijkstras.js:268-299 | removing a root takes it out of its bucket and files each child under its depth |
| HeapFacts.RemoveInnerWalk | Dijkstras.js:309-318 | the walk from an inner node's parent follows parent links up to a parentless name without repeats when that loop ends |
| HeapFacts.RemovedInner | Dijkstras.js:280-326 | removing an inner node moves its children to its parent and then walks up from that parent |
| HeapFacts.LiftedDepths | Dijkstras.js:312-318 | the walk lowers the depth of each name on the ancestor chain by one and leaves every other record alone |
| HeapFacts.RemoveInnerDepths | Dijkstras.js:307-318 | removing an inner node lowers exactly the depths of its ancestors |
| HeapFacts.RemoveInnerLinks | Dijkstras.js:281-299 | removing an inner node gives its children its parent and leaves roots and `min` alone |
| HeapFacts.LiftedBuckets | Dijkstras.js:320-325 | the walk files its last name in the bucket of its lowered depth and touches no other bucket |
| HeapFacts.RemoveInnerHang | Dijkstras.js:307-318 | removing an inner node hangs exactly when no child depth is negative and the parent chain repeats a name |
| HeapFacts.UpdateFacts | Dijkstras.js:254-258 | after `update` the name reads the new distance with a fresh record, no other distance changes, and it is the last root and the last name of bucket 0 |
| HeapShift.MergePairFacts | Dijkstras.js:195-223 | the first two names of the bucket are paired, the first wins only when strictly closer, and the winner is never farther |
| HeapShift.MergeStepLinks | Dijkstras.js:200-223 | a merge makes the loser a child of the winner at one depth more and changes no distance and no other record |
| HeapShift.MergeStepLists | Dijkstras.js:195-228 | a merge drops the loser from the roots, the pair from the bucket, and files the winner one bucket up |
| HeapShift.DrainKeeps | Dijkstras.js:193-229 | the inner loop keeps every distance and `min`, and only drops roots |
| HeapShift.ConsolidateFromKeeps | Dijkstras.js:192-230 | the outer loop keeps every distance and `min`, and only drops roots |
| HeapShift.ConsolidateFacts | Dijkstras.js:187-231 | `consolidate` keeps every distance and `min`, only drops roots, and leaves at most one name per bucket |
| HeapShift.ScanFirstLeast | Dijkstras.js:171-182 | the scan picks the first root of least distance, and keeps the old candidate when no root has a record |
| HeapShift.FirstLeastIsLeast | Dijkstras.js:171-182 | the scan's pick is no farther than any root |
| HeapShift.ShiftFacts | Dijkstras.js:154-185 | `shift` keeps every distance; with no min or no roots it clears `min`, otherwise `min` is the first root of least distance or stays put when no roots are left |
| HeapShift.ShiftLastRoot | Dijkstras.js:154-185 | with one root, `shift` is `remove` then `consolidate` and nothing else |
| HeapShift.RemoveLastRoot | Dijkstras.js:159-182 | removing the only root leaves no roots and the old `min` in place |
| HeapShift.ShiftNoRoots | Dijkstras.js:159-162 | with no roots `shift` only clears `min` |
| HeapShift.ShiftTwice | Dijkstras.js:154-185 | a heap holding one name, at any distance, hands it out on two `shift`s in a row before it is empty |
| Dijkstra.Plus | Dijkstras.js:128-130 | `uDistance + cost` is Infinity exactly when `uDistance` is |
| Dijkstra.NotRaisedTrans | Dijkstras.js:132-133 | distances that never go up, step after step, never go up overall |
| Dijkstra.LinkedRelaxed | Dijkstras.js:132-135 | a relaxing update keeps every reached name linked back along a graph edge to a reached name, and raises no distance |
| Dijkstra.WalkEndsAtSource | Dijkstras.js:115-118 | following `previous` from a reached name until it stops ends at the source, along graph edges |
| Dijkstra.ReversedSteps | Dijkstras.js:114-118 | read backwards, a walk to the source is a chain of `previous` links along graph edges from the source |
| Dijkstra.WalkIsPath | Dijkstras.js:112-119 | the rebuilt path leads from the source to the target along graph edges recorded in `previous` |
| Dijkstra.Dijkstras.constructor | Dijkstras.js:26-31 | a new object has an empty graph, no `previous` links and no queue |
| Dijkstra.Dijkstras.SetGraph | Dijkstras.js:47-80 | the new graph and the error are those `Loaded` gives for the old graph and the input, and nothing else changes |
| Dijkstra.Dijkstras.Rebuild | Dijkstras.js:114-119 | the path is the `previous` walk from the target, reversed and without its last name, which has no link; it is `PathCycle` only when the walk has repeated a name |
| Dijkstra.Dijkstras.Report | Dijkstras.js:112-120 | the target's reported path is a path from the source along recorded graph edges, or `PathCycle` |
| Dijkstra.Dijkstras.RelaxEdge | Dijkstras.js:128-135 | an improving edge lowers the neighbour to `uDistance + cost` and links it to `u`; otherwise nothing changes; only a heap error stops it |
| Dijkstra.Dijkstras.RelaxAll | Dijkstras.js:127-136 | relaxing every neighbour keeps every reached name linked back to the source and raises no distance |
| Dijkstra.Dijkstras.Visit | Dijkstras.js:111-136 | one pass of the main loop either goes on, with the links kept and no queued distance raised, or stops with a heap or cycle error, or returns a path from source to target |
| Dijkstra.Dijkstras.GetPath | Dijkstras.js:89-140 | throws for a missing source, then for a missing target; the same source and target give `[]`; a non-empty result is a path from source to target along graph edges; the graph is unchanged |
| GridGen.CellNameInjective | benchmark/graphgenerator.js:9 | two cells with non-negative coordinates share a name exactly when they are the same cell |
| GridGen.Pick | benchmark/graphgenerator.js:12-19 | a direction is kept exactly when its step lands in the grid |
| GridGen.GridCell | benchmark/graphgenerator.js:5-72 | cell `(a, b)` of the grid is entry `(a - 1) * y + b - 1`: its own name `a + 'x' + b`, then one `[name, 1]` per connection, naming the cell one step away, in the order the branch lists the directions |
| GridGen.GenerateGraph | benchmark/graphgenerator.js:1-87 | the returned array is the grid's entries, column by column |
| GridGen.CellsShape | benchmark/graphgenerator.js:5-11 | the generator visits `x * y` cells (none unless both are at least 1), cell `(a, b)` at position `(a - 1) * y + b - 1` |
| GridGen.GridLoads | benchmark/graphgenerator.js:1-87 | `setGraph` accepts the generated graph exactly when `x` and `y` are at least 1, and throws "graph is empty" otherwise |
| GridGen.EntryGood | benchmark/graphgenerator.js:72 | each entry is a well-formed `[name, vertices]` pair |
| GridGen.LinksGood | benchmark/graphgenerator.js:24-69 | each connection is a well-formed `[name, cost]` pair |
| GridGen.WrittenColumnX | benchmark/graphgenerator.js:27-33 | as written, a cell of column `x` below the top links south-east out of the grid and not north |
| GridGen.WrittenEdges | benchmark/graphgenerator.js:22-40 | as written, the top of column 1 links west out of the grid, and the bottom of column `x` links south out of it |
| GridGen.WrittenCounts | benchmark/graphgenerator.js:22-70 | as written, every cell gets 3, 5 or 8 connections |
| GridGen.WrittenSingle | benchmark/graphgenerator.js:22-26 | as written, the 1 by 1 grid links its only cell to three cells outside the grid |
| GridGen.WrittenTwoByTwo | benchmark/graphgenerator.js:27-33 | as written, cell `2x1` of the 2 by 2 grid links to `3x0` first and never to `2x2` |
| GridGen.IntendedExact | benchmark/graphgenerator.js:22-70 | corrected, a cell links in a direction exactly when the step lands in the grid, at most eight links |
| GridGen.IntendedCounts | benchmark/graphgenerator.js:22-70 | corrected, with at least two cells each way, corners have 3 links, other border cells 5 and inner cells 8 |
| GridGen.Opposite | benchmark/graphgenerator.js:12-19 | each direction has an opposite that undoes its step |
| GridGen.IntendedSymmetric | benchmark/graphgenerator.js:22-70 | corrected, a cell linked from a cell links back to it |
| GridGen.WrittenAgrees | benchmark/graphgenerator.js:34-69 | as written, every cell outside column `x`, except the top of column 1, gets exactly the corrected links, with at least two rows |

## Left out

- Dijkstra.Dijkstras.GetPath: the main loop runs for at most `fuel` passes and then stops with `FuelExhausted`, where the JavaScript loop runs until the heap is empty. No termination bound is proved for the loop as written, because a stale `min` can hand the same name out again.
- Dijkstra.Dijkstras.GetPath: `source` and `target` are strings only. JavaScript also accepts numbers, and then `u === target` (Dijkstras.js:113) compares the string keys that `for…in` hands out with a number, so for example `getPath(1, 3)` returns `[]`. That is not modelled.
- Dijkstra.Dijkstras.GetPath: `NumericCosts` is required. Costs are natural numbers. A cost that is a string or an array makes `+` concatenate in JavaScript, and that is not modelled. Neither are floating-point, negative or fractional costs.
- Dijkstra.Dijkstras.Rebuild: a `previous` walk that goes round ends with `PathCycle`, where the JavaScript loops forever. The walk stops after as many steps as `previous` has names.
- Heap.MinHeap.WalkUp: the walk stops after as many steps as there are records, where `while (nextParent)` at Dijkstras.js:312 loops forever on a parent chain that goes round. Heap.MinHeap.Climb then reports `Cycle`, and `HeapWalk.LiftedHangIffRepeat` shows this happens exactly when the chain repeats a name.
- Names are strings and `""` is treated like any other name inside the heap. JavaScript treats `""` as false in `!this.min` (Dijkstras.js:245) and `while (nextParent)` (Dijkstras.js:312). Only the `while (u = shift())` test of `getPath` (Dijkstras.js:111) is modelled as stopping on `""`.
- HeapModel.Distance, Dijkstra.Dijkstras.RelaxEdge and GraphInput.OneNode: four stores are JavaScript arrays in the source and are modelled as plain name-keyed tables. They are `this.graph` (Dijkstras.js:26), each adjacency list `this.graph[nodeName] = []` (Dijkstras.js:67), `this.previous` (Dijkstras.js:30) and the heap's `this.nodes` (Dijkstras.js:149). Names that are already properties of an array are not modelled. These are its own `length`, the members it inherits from `Array.prototype` and `Object.prototype` (such as `constructor`, `push` or `toString`), and `__proto__`. The model treats them as ordinary names. In JavaScript, `getDistance("constructor")` finds the inherited function at Dijkstras.js:331-332 and returns `undefined`, so the test at Dijkstras.js:132 fails and the neighbour is never queued. For example, `setGraph([["a", [["constructor", 1]]]])` then `getPath("a", "constructor")` gives `[]` there, and `["constructor"]` in the model. A neighbour named `length` resizes the adjacency list at Dijkstras.js:73 instead of adding an entry. `this.previous["length"] = u` at Dijkstras.js:134 throws a RangeError.
- JsInput.Value: inputs are numbers, strings and arrays. `null`, `undefined`, plain objects, booleans and functions are not modelled. A plain object with a numeric `length` passes the checks of `setGraph` like an array, and that is not modelled.
- After a TypeError inside the heap, `getPath` reports `HeapTypeError`. Which of the heap's fields the JavaScript had already changed is not modelled.
- The `distance` field of the `Dijkstras` constructor (Dijkstras.js:29) is never used by the source and is not modelled.
- `generateGraph` is modelled for integer `x` and `y`. Its `totalConnections` counter and the commented-out console output (benchmark/graphgenerator.js:74, 81-84) do not reach the result and are not modelled.
- Exceptions are returned as error values rather than thrown. The thrown message strings are not modelled; the error values carry the indices the messages report.

## Findings

| source | as written | input that shows it | evidently intended | confidence | as-written member | corrected member |
|---|---|---|---|---|---|---|
| benchmark/graphgenerator.js:27-33 | cells of column `x` below the top row push `se` and leave out `n` ("No EAST") | `generateGraph(2, 2)`: cell `2x1` links to `3x0` and not to `2x2` | push `n` instead of `se` | high, not executed | GridGen.WrittenColumnX | GridGen.IntendedExact |
| benchmark/graphgenerator.js:34-40 | the top row ("No NORTH") always pushes `sw` and `w`, also in column 1 | `generateGraph(2, 2)`: cell `1x2` links to `0x1` and `0x2` | leave out west-going links in column 1 | high, not executed | GridGen.WrittenEdges | GridGen.IntendedExact |
| benchmark/graphgenerator.js:27-33 | the column `x` branch always pushes `s`, `sw` and `se`, also in row 1 | `generateGraph(2, 2)`: cell `2x1` links to `2x0` | leave out south-going links in row 1 | high, not executed | GridGen.WrittenEdges | GridGen.IntendedCounts |
| benchmark/graphgenerator.js:22-26 | the 1 by 1 grid's only cell links south, south-west and west | `generateGraph(1, 1)`: cell `1x1` links to `1x0`, `0x0` and `0x1` | no links | high, not executed | GridGen.WrittenSingle | GridGen.IntendedExact |

`GridGen.GenerateGraph` takes the layout as a parameter. `Layout.AsWritten`
builds the grid as the code is written. `Layout.Corrected` builds it with
the links the branch comments describe. `GridGen.GridLoads` holds for both.
