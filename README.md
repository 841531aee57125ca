# A verified model of the lattice core of `lattices.js`

`lattices.js` works on finite lattices. It stores a lattice as dense tables:
- the order `leq` and its variants `geq`, `lt` and `gt`;
- the join and meet tables `lub` and `glb`;
- the covering relation as `children` and `parents` lists and as the `isChild` table;
- the edge count `m`, the `top` and `bottom` elements;
- two topological orders, `topoDownUp` and `topoUpDown`;
- the list of incomparable pairs, `uncomparables`.

It solves the GMeet problem: given a map `h` from elements to elements, find the greatest join-preserving map pointwise below `h`. This project models the following parts in Dafny and proves what each promises:
- the children-list utilities: doubling, powersets, random edge insertion, the seeded preset generator, inversion, topological sort and transitive closure;
- the random generator `RNG`;
- the `Lattice` constructor and its static builders `total`, `powerset`, `preset` and `fromChildren`;
- `subLatticeIrr`;
- the three closure passes;
- the exported GMeet solvers.

Modules, leaves first:
- `Utils`: ranges and powers of two.
- `Rng`: the generator as a class whose state advances on each call.
- `Lattices`: the `Lattice` record, its invariant `Valid`, and lemmas about valid lattices.
- `UtilsChildren`: `children2isChild`, `children2parents`, `topoDfs`, `children2topo` and `children2leq`.
- `Generators`: `twiceChildren`, `powerset`, `randomEdge`, `addNodesBetween` and `presets`. It also proves that each move turns the covering relation of a lattice into the covering relation of a lattice.
- `Construct`: the constructor, loop by loop.
- `Statics`: `total`, `powerset`, `preset`, `fromChildren` and `subLatticeIrr`.
- `Chains`: the chain lattices in closed form.
- `Endos`: maps on a lattice and what "greatest join-preserving map below" means.
- `Closures`: `monoMaxBelow`, `monoMinAbove` and `joinMaxBelow`, in place on arrays.
- `Triples`: the `triples` index and the work queue.
- `Solvers`, `Easy`, `Easy2`, `MonoDfs` and `Plus`: the GMeet algorithms.

The JS objects the solvers mutate become Dafny arrays. Tables that are built once become sequences. Solvers that return a fresh result return a sequence.

## Model

| member | source | states |
|---|---|---|
| Utils.Range | lattices.js:12 | `range(n)` lists 0..n-1 in order |
| Rng.JsRem | lattices.js:39-40 | JS `%`: the result has the dividend's sign and a magnitude below the divisor's; a small non-negative dividend is returned unchanged |
| Rng.Shl1 | lattices.js:35 | JS `1 << k` shifts by k mod 32 and gives the negative -2^31 at 31 |
| Rng.StateBound | lattices.js:39 | after one or more calls the state lies in [0, 7778777) |
| Rng.OutputBound | lattices.js:38-41 | every value returned lies in [0, 7778777) and is below abs(maxValue) |
| Rng.DefaultOutput | lattices.js:35-41 | with the default bound `1<<31` each value returned is the state itself |
| Rng.Generator.constructor | lattices.js:35-37 | a generator starts with the given seed and bound and no calls made |
| Rng.Generator.Next | lattices.js:38-41 | one call advances the state by `(curr*257+1) % 7778777` and returns a fixed function of seed, bound and call count, so the sequence is deterministic |
| UtilsChildren.Children2IsChild | lattices.js:137-144 | `isChild[a][b]` holds exactly when a is listed in `children[b]` |
| UtilsChildren.Children2Parents | lattices.js:146-153 | `parents[y]` lists x exactly when `children[x]` lists y; every list is sorted |
| UtilsChildren.Dfs | lattices.js:226-230 | the inner dfs marks x, extends the order by the newly reached elements only, and keeps requirements first on an acyclic relation |
| UtilsChildren.TopoDfs | lattices.js:221-233 | the result lists every element exactly once; on an acyclic relation every requirement comes before the node requiring it |
| UtilsChildren.Children2Topo | lattices.js:214-219 | returns the inverse lists and both orders; each order is a permutation with requirements first |
| UtilsChildren.InverseAcyclic | lattices.js:214-219 | the inverse of an acyclic relation is acyclic, so `topoUpDown` is ordered too |
| UtilsChildren.OrColumn | lattices.js:203 | column b becomes its old value or column a, and nothing else changes |
| UtilsChildren.Propagate | lattices.js:202-204 | every parent column of a takes in column a |
| UtilsChildren.NoneBelowEarlier | lattices.js:206 | the check passes iff no later element is below an earlier one |
| UtilsChildren.OrderedPasses | lattices.js:206 | with requirements first, the check always passes |
| UtilsChildren.CheckedAcyclic | lattices.js:206 | a passing check proves the relation acyclic |
| UtilsChildren.Children2Leq | lattices.js:195-211 | succeeds iff the relation is acyclic; the result is then its reflexive-transitive closure and a partial order |
| UtilsChildren.ClosureOrder | lattices.js:196 | the closure of an acyclic relation is reflexive, antisymmetric and transitive |
| UtilsChildren.ClosureUnique | lattices.js:196 | an acyclic relation has exactly one closure |
| Generators.TwiceChildren | lattices.js:66-71 | 2n lists: the first n are copied, and list n+x is x followed by `children[x]` shifted by n |
| Generators.TwiceEntries | lattices.js:66-71 | the doubled lists stay within 0..2n-1 |
| Generators.TwiceLattice | lattices.js:66-71 | the doubled order (the product with the 2-chain) is a lattice |
| Generators.UpperCovers | lattices.js:69 | in the upper copy, a covers b iff their originals do |
| Generators.TwiceCovering | lattices.js:66-71 | doubling a lattice's covering gives the covering of the doubled lattice |
| Generators.TwicePartialOrder | lattices.js:66-71 | the doubled order is again a partial order |
| Generators.PowersetLattice | lattices.js:56-63 | k doublings of `[[]]` give 2^k lists that are the covering of the subset order on k bits |
| Generators.Powerset | lattices.js:56-63 | fails iff `log2n % 32 == 31` (the shift turns negative); otherwise returns the k-fold doubling, where k = log2n % 32, which has 2^k lists |
| Generators.WrapValue | lattices.js:80 | i steps of `(b+1)%n` from s land on s+i, wrapped once |
| Generators.RandomEdge | lattices.js:74-84 | fails iff there are fewer than two nodes or every list is empty. Otherwise it returns (a, b) where b is the first nonempty list reached by walking forward from `start % n`, and a is the first entry of `children[b]` |
| Generators.RemoveAll | lattices.js:91 | the filter keeps exactly the entries other than a |
| Generators.AddNodesBetween | lattices.js:87-94 | appends k lists `[a]`; `children[b]` loses a and gains n..n+k-1 at its end; every other list is copied |
| Generators.BetweenLattice | lattices.js:87-94 | putting k parallel elements between the ends of a covering pair a < b gives a lattice |
| Generators.BetweenPartialOrder | lattices.js:87-94 | inserting below b and above a keeps a partial order |
| Generators.BetweenTranspose | lattices.js:87-94 | the inserted order, reversed, is the insertion into the reversed order |
| Generators.AddNodesCovering | lattices.js:87-94 | for a covering pair, the new lists are exactly the covering of the new lattice |
| Generators.TwiceStep | lattices.js:105 | doubling keeps "covering of a lattice", and list n is nonempty |
| Generators.BetweenStep | lattices.js:108-112 | inserting between b and a child of b keeps "covering of a lattice" |
| Generators.Draw | lattices.js:101-110 | one draw from the generator is its next output and lies below 7778777 |
| Generators.Presets | lattices.js:97-116 | a returned relation has max(2, k) elements and is the covering of a lattice |
| Lattices.Trans | lattices.js:244-247 | the order a lattice is built from is transitive |
| Lattices.Antisym | lattices.js:244-247 | the order a lattice is built from is antisymmetric |
| Lattices.Strict | lattices.js:253-257 | `geq` is the transpose of `leq`; `lt` and `gt` are their strict parts |
| Lattices.Uncomparable | lattices.js:305-308 | `uncomparables` holds (a, b) iff a < b and the two are incomparable |
| Lattices.DownUpOrdered | lattices.js:294 | in `topoDownUp` no element comes after something it is below |
| Lattices.UpDownOrdered | lattices.js:295 | in `topoUpDown` no element comes before something it is below |
| Lattices.ChildIsCovered | lattices.js:268-278 | a is in `children[b]` iff b covers a; `parents` and `isChild` agree with `children` |
| Lattices.CoversBetween | lattices.js:272 | nothing lies strictly between the two ends of a covering pair |
| Lattices.LubFacts | lattices.js:258-267 | `lub` and `glb` are symmetric and are bounds; on comparable pairs they are the larger and the smaller element |
| Lattices.LubLeast | lattices.js:264-266 | the join is below every common upper bound |
| Lattices.GlbGreatest | lattices.js:261-263 | the meet is above every common lower bound |
| Lattices.LubMono | lattices.js:264-266 | the join is monotone in both arguments |
| Lattices.GlbMono | lattices.js:261-263 | the meet is monotone in both arguments |
| Lattices.TransposeOrder | lattices.js:253-257 | `geq` is a partial order whose covers, joins and meets are those of `leq` reversed |
| Lattices.TransposeLattice | lattices.js:253-257 | `geq` is again a lattice order |
| Lattices.HeightMono | lattices.js:294 | the number of elements below strictly grows along the strict order |
| Lattices.BelowSomeChild | lattices.js:268-274 | below every b above a there is a child of b above a |
| Construct.CoveringRanked | lattices.js:294-295 | a covering relation has no cycle: the height ranks it |
| Construct.CoveringClosure | lattices.js:350-351 | the closure of the covering of a partial order is that order |
| Construct.DownUpFromDfs | lattices.js:294 | the dfs order of `children` lists nothing after something it is below |
| Construct.UpDownFromDfs | lattices.js:295 | the dfs order of `parents` lists nothing before something it is below |
| Construct.TopUnique | lattices.js:279 | for a lattice, the only element with no parent is the top |
| Construct.BottomUnique | lattices.js:280 | for a lattice, the only element with no child is the bottom |
| Construct.SquareRows | lattices.js:247 | accepts iff every row has n entries |
| Construct.StrictTables | lattices.js:250-257 | `geq[a][b] == leq[b][a]`, `gt` and `lt` are the strict parts, for every cell |
| Construct.Extreme | lattices.js:261-263 | the filter-reduce scan over lower bounds returns the meet of a and b (and of b and a) |
| Construct.GeqLattice | lattices.js:264-266 | the `geq` table is a lattice order, so the scan on it exists |
| Construct.GeqGlbIsLub | lattices.js:264-266 | the meet scan on `geq` is the join for `leq` |
| Construct.Bounds | lattices.js:258-267 | every `glb[a][b]` is the meet and every `lub[a][b]` the join; both tables are symmetric |
| Construct.CoversByLt | lattices.js:271-272 | b covers a iff `lt[a][b]` and no x has `lt[a][x] && lt[x][b]` |
| Construct.NothingBetween | lattices.js:272 | the count is zero iff nothing lies strictly between a and b |
| Construct.CoveringFromLt | lattices.js:268-274 | without given lists, the lists built are exactly the covering relation |
| Construct.EdgeTotal | lattices.js:275-276 | m is the total number of list entries |
| Construct.FirstEmpty | lattices.js:279-280 | returns the first index with an empty list, or None iff there is none |
| Construct.Uncomparables | lattices.js:305-308 | lists (a, b) iff a < b < n and neither is below the other |
| Construct.ValidParts | lattices.js:309-324 | the tables computed cell by cell together satisfy `Valid` |
| Construct.Assemble | lattices.js:275-324 | from a lattice order with correct strict, bound and covering tables, the derived tables complete a valid lattice that keeps them |
| Construct.Build | lattices.js:244-328 | fails iff a row has the wrong length. Otherwise it gives a valid lattice on the given `leq` that keeps any given covering, with symmetric `lub` and `glb` |
| Statics.LubUnique | lattices.js:264-266 | a pair has only one join |
| Statics.GlbUnique | lattices.js:261-263 | a pair has only one meet |
| Statics.ChainLattice | lattices.js:331-336 | 0 < ... < n-1 is a lattice with join max and meet min |
| Statics.Total | lattices.js:331-336 | `Lattice.total(n)` is valid, `leq[a][b] == (a <= b)`, `lub` is max and `glb` is min |
| Statics.FromChildren | lattices.js:348-352 | from the covering of a lattice, the result is valid, keeps the lists and has exactly that lattice's order |
| Statics.PowersetOf | lattices.js:338-342 | fails iff `log2n % 32 == 31`; otherwise it gives the valid subset lattice of 2^k elements and its doubling covering, where k = log2n % 32 |
| Statics.PresetOf | lattices.js:343-347 | a returned lattice is valid with max(2, k) elements |
| Statics.Irreducibles | lattices.js:402 | lists, increasing, exactly the elements with one child |
| Statics.IndexTable | lattices.js:404-405 | maps each listed element to its index and every other element to -1 |
| Statics.RestrictTable | lattices.js:406-411 | the table is `leq` read at the pairs of listed elements |
| Statics.SubLatticeIrr | lattices.js:400-414 | `subToSuper` is exactly the one-child elements in increasing order and `superToSub` inverts it, with -1 elsewhere; `sub` is valid with the restricted order |
| Chains.ChainValid | lattices.js:331-336 | the chain of n elements, written out table by table, is a valid lattice |
| Endos.JoinPreservingIsMonotone | lattices.js:449-472 | a join-preserving map is monotone |
| Endos.CoverMonotoneIsMonotone | lattices.js:420-431 | monotone on covering pairs implies monotone |
| Endos.PairsSuffice | lattices.js:458 | preserving the join of every pair a < b is preserving all joins |
| Endos.DominatesJoinStep | lattices.js:463 | lowering `h[a∨b]` to the join of `h[a]` and `h[b]` keeps every join-preserving g below h above it |
| Endos.DominatesMeetStep | lattices.js:465-466 | lowering `h[x]` to its meet with `h[y]` for x <= y keeps every such g below |
| Endos.MonoDominatesJoin | lattices.js:595 | a map above every monotone g below the start is above every join-preserving one |
| Endos.GreatestIsUnique | lattices.js:565-587 | the greatest join-preserving map below h is unique, so all solvers agree |
| Endos.GreatestIsFixpoint | lattices.js:449-472 | the answer for f is also the answer for itself, so running a solver again changes nothing |
| Endos.JoinPreservingIsGreatest | lattices.js:449-472 | a join-preserving start is its own answer |
| Endos.GreatestMonoThenJoin | lattices.js:620-633 | the greatest monotone map below h is the answer iff it preserves joins |
| Endos.MeasureDecreases | lattices.js:570-586 | lowering a map pointwise lowers the termination measure, strictly when the map changes |
| Closures.MeetOfParents | lattices.js:426-427 | z is the meet of `h[x]` and `h[p]` over the parents p |
| Closures.MonoMaxBelow | lattices.js:420-431 | h becomes the greatest monotone map below its old value; true iff it changed |
| Closures.DownDone | lattices.js:425-429 | once every element has been visited in `topoUpDown` order, h is the greatest monotone map below the start |
| Closures.JoinOfChildren | lattices.js:440-441 | z is the join of `h[x]` and `h[c]` over the children c |
| Closures.MonoMinAbove | lattices.js:434-445 | h becomes the least monotone map above its old value; true iff it changed |
| Closures.UpDone | lattices.js:439-443 | once every element has been visited in `topoDownUp` order, h is the least monotone map above the start |
| Closures.RepairedSound | lattices.js:459-467 | one repair of an inconsistent pair lowers h strictly and keeps every join-preserving g below |
| Closures.MeetRepairSound | lattices.js:465-466 | lowering h(a) and h(b) to their meets with h(a∨b) lowers h strictly when either was not below, and keeps every join-preserving g below |
| Closures.RepairPair | lattices.js:461-467 | the in-place repair computes `Repaired` |
| Closures.RepairRow | lattices.js:458-468 | a row of repairs lowers h; unchanged means every pair of the row is consistent |
| Closures.Sweep | lattices.js:456-468 | a full sweep lowers h; unchanged means h preserves joins |
| Closures.JoinMaxBelow | lattices.js:449-472 | h becomes the greatest join-preserving map below its old value; true iff it changed |
| Solvers.StartIsMeet | lattices.js:568 | the start is the pointwise meet of f and g (or f, or f ∧ top) |
| Solvers.StartWithTop | lattices.js:568 | the array holds `glb[f[x]][g? g[x] : top]` |
| Solvers.StartCopy | lattices.js:618 | the array holds `g ? glb[f[x]][g[x]] : f[x]` |
| Solvers.MonotoneComparable | lattices.js:599 | a monotone map is consistent on comparable pairs |
| Solvers.MonotoneJoinBelow | lattices.js:602 | for monotone h, `lub[h[a]][h[b]]` is below `h[lub[a][b]]` |
| Solvers.UncomparablesSuffice | lattices.js:599-609 | a monotone map consistent on `uncomparables` preserves joins |
| Solvers.GMeetNaiveLoop | lattices.js:565-588 | returns the greatest join-preserving map below the start |
| Solvers.LatePass | lattices.js:622-633 | one round lowers h; unchanged means join-preserving |
| Solvers.GMeetMonoLate | lattices.js:616-635 | returns the greatest join-preserving map below the start |
| Solvers.LowerBelow | lattices.js:606-608 | every x below y gets `glb[h[x]][c]` |
| Solvers.LoweredBelowSound | lattices.js:601-608 | that lowering keeps monotone maps monotone and keeps every join-preserving g below |
| Solvers.LoweredBelowMonotone | lattices.js:606-608 | lowering the down-set of y to its meet with c keeps h monotone and below its old value |
| Solvers.NaivePass | lattices.js:597-610 | one round lowers h and keeps it monotone; unchanged means join-preserving |
| Solvers.GMeetMonoNaive | lattices.js:591-612 | returns the greatest join-preserving map below the start |
| Triples.BuildTriples | lattices.js:990-999 | each element's list holds exactly the triples (a, b, a∨b) that mention it, over the pairs a < b whose join is neither |
| Triples.Push | lattices.js:1015 | pushing flags x, changes no other flag and appends x at most once |
| Triples.PushOk | lattices.js:1015 | pushing keeps the queue and its flags in agreement |
| Triples.PopOk | lattices.js:1025-1026 | popping keeps the queue and its flags in agreement |
| Triples.DoneConsistent | lattices.js:1024-1032 | an empty queue with every pending triple supported means every listed triple is consistent |
| Easy.EasyFixChanges | lattices.js:1060-1067 | the three-step repair changes h iff the pair is inconsistent |
| Easy.EasyFixStep | lattices.js:1060-1067 | the repair lowers h strictly and keeps every join-preserving g below |
| Easy.EasyFix | lattices.js:1065-1067 | the in-place repair computes `EasyFixed` |
| Easy.EasySpin | lattices.js:1056-1069 | the endless inner loop ends with row a consistent and h lowered |
| Easy.GMeetEasy | lattices.js:1038-1071 | the result lies below the start and keeps every join-preserving g below it; it is consistent on every pair (0, b), and equals the start when the start already is |
| Easy.EasyMissesPairs | lattices.js:1056-1069 | on the 3-chain, [0, 2, 1] passes every pair (0, b) but fails on (1, 2) |
| Easy.EasyRound | lattices.js:1107-1113 | a round leaves h unchanged iff every listed pair is consistent |
| Easy.EasyRounds | lattices.js:1105-1115 | the rounds end with every listed pair consistent |
| Easy.GMeetEasy3 | lattices.js:1101-1117 | the result is below the start and consistent on the incomparable pairs only |
| Easy.Easy3MissesComparable | lattices.js:1101-1117 | on the 2-chain, [1, 0] passes (there is no incomparable pair) but is not join-preserving |
| Easy.AllPairs | lattices.js:1045 | lists every pair a < b < n |
| Easy.GMeetEasyAllPairs | lattices.js:1041-1056 | rounds over all pairs return the greatest join-preserving map below the start |
| Easy2.Easy2FixChanges | lattices.js:1085-1095 | the repair changes h iff the pair is inconsistent |
| Easy2.Easy2FixKeepsBelow | lattices.js:1089-1095 | every join-preserving g below h stays below after the repair |
| Easy2.Easy2Step | lattices.js:1085-1095 | one triple: h repaired if inconsistent, each changed element queued |
| Easy2.Easy2Triples | lattices.js:1083-1096 | the triples of a popped element leave every one of them either consistent or waiting on a queued element |
| Easy2.Easy2Queue | lattices.js:1078-1097 | ends with every listed triple consistent, h below its start |
| Easy2.GMeetEasy2 | lattices.js:1074-1098 | the result is below the start and consistent on the listed triples only |
| Easy2.Easy2MissesComparable | lattices.js:990-999 | on the 2-chain no triple is listed, so [1, 0] comes back unchanged |
| Easy2.GMeetEasy2AllPairs | lattices.js:1074-1098 | with every pair listed, the queue returns the greatest join-preserving map below the start |
| MonoDfs.Dfs | lattices.js:1010-1019 | the walk below b lowers exactly to `LoweredBelow` on the elements it reaches and queues each changed one |
| MonoDfs.LowerDown | lattices.js:1030 | `seen.clear(), dfs(ab, hab)` lowers every x below ab to `glb[h[x]][hab]` |
| MonoDfs.CheckTriple | lattices.js:1029-1030 | one triple keeps h monotone and below, leaves the triple supported and queues every changed element |
| MonoDfs.CheckTriples | lattices.js:1027-1031 | one element's triples keep h monotone and below, and every triple supported |
| MonoDfs.MonotoneListed | lattices.js:990-999 | a monotone map consistent on the listed triples preserves joins |
| MonoDfs.GMeetMonoDfs | lattices.js:1002-1034 | returns the greatest join-preserving map below the start |
| Plus.Unpack | lattices.js:492 | `unpack2(p)` is (p div n, p mod n) |
| Plus.UnpackPack | lattices.js:489-492 | `pack2` is symmetric and below n*n, and `unpack2(pack2(a, b))` is (min, max) |
| Plus.PackUnpack | lattices.js:489-492 | packing an unpacked code gives the code back |
| Plus.SetPop | lattices.js:495-498 | from a nonempty set, removes and returns some member; None only on the empty set |
| Plus.DecideAdd | lattices.js:661-668 | (u, v) goes to `sup[u∨v]` if consistent, to `con` if `h[u∨v]` is above the join, else to `fail` |
| Plus.CheckSupports | lattices.js:650-659 | after the scan of u, every pair is filed correctly again |
| Plus.CheckPair | lattices.js:652-657 | one v of the scan refiles (u, v) if needed and leaves the tables alone when the pair is consistent |
| Plus.LowerToward | lattices.js:694-700 | `h[xy]` drops to its meet with `h[z]` and is unchanged iff it was already below |
| Plus.RepairFailure | lattices.js:688-704 | a failing pair is repaired, h strictly lowered, filing restored |
| Plus.FailLoop | lattices.js:686-705 | the fail loop empties `fail` while keeping h below and every g below h |
| Plus.FailStep | lattices.js:687-704 | one failing pair either shrinks `fail` or lowers h |
| Plus.LowerJoin | lattices.js:680-684 | writing the join at w lowers h strictly and keeps the filing |
| Plus.ConStep | lattices.js:672-706 | one `con` step either shrinks `con` or lowers h |
| Plus.Seed | lattices.js:645-670 | filing every incomparable pair gives a correct start with empty `fail` |
| Plus.SettledJoin | lattices.js:672 | with `con` and `fail` empty, h preserves joins |
| Plus.SettledMonotone | lattices.js:672 | with `fail` empty, the filing keeps h monotone |
| Plus.GMeetPlus | lattices.js:637-708 | returns the greatest join-preserving map below the start |

## Left out

- `shuffled`, `shuffle`, `RNG(null)` and `randomEdge` with a null start all draw from `Math.random`; the samplers `randomArbitraryF`, `randomMonotoneF`, `randomJoinF` and `powersetRandomSpaceF` do too. The model takes the start as a parameter and leaves the rest out.
- The `cnt` operation counters affect no result and are not modelled.
- The solvers left out of the returned object (`GMeetConfirm`, `GMeetConfirmMono`, `DMeetIrr`, `GMeetMonoLateIrr`, `GMeetMonoLateIrr2`, `GMeetTest`, `GMeetTest2`) and the unused `children2leqSlow` are not part of this model.
- `index.js`, `GMeetMono.js`, `types.js` and the files under `other-tests` are not part of this model.
- `iterDiffPairs` (lattices.js:29-32) appears only through the check it drives in `children2leq`.
- The closures' optional `coDomain` parameter is never passed, so it is not modelled.
- The `walkDown` and `walkUp` generators yield in topological order and store nothing; they are not modelled.
- Easy.GMeetEasy: `pending` is computed with JS `>>`, which truncates to 32 bits; the model uses the unbounded value.
- JS `Set` iteration order is modelled as an arbitrary choice in `SetPop`, so the Plus contracts hold for every order.
- Rng.Generator.constructor: requires maxValue != 0, where JS would return NaN; the loss of precision in doubles for huge seeds is not modelled.
- Generators.Presets: is weaker than the source. It takes a fuel bound on its loops and returns None when the fuel runs out; the model does not show that some fuel always suffices.
- Statics.PresetOf: inherits the same fuel bound.
- UtilsChildren.Children2Leq: the reflexivity assert (lattices.js:205) and the trivial assert (lattices.js:207-209) always hold, so the model leaves those checks out.
- Construct.Build: requires that `leq` is a lattice order when it is square. This excludes n = 0, where JS builds an object with an undefined top. It also requires any given lists to be the covering of `leq`; on other input JS fills the tables with meaningless values.
- Statics.Total: requires n >= 1, for the same reason as Build.
- Statics.FromChildren: requires the lists to be the covering of some lattice; on other input JS throws in `children2leq` or builds meaningless tables.
- Statics.SubLatticeIrr: requires that the order restricted to the one-child elements is a lattice, because `new Lattice(subLeq)` expects one.
- The model follows the code where the repository's description reads differently. `addNodesBetween` inserts k parallel nodes, not a chain. `presets` only doubles and subdivides; it never takes products or sums with smaller presets.
- The solvers do not force `h[bottom] = bottom`; only binary joins are preserved, as in the code.

## Findings

| source | as written | input that shows it | evidently intended | confidence | as-written member | corrected member |
|---|---|---|---|---|---|---|
| lattices.js:1056-1069 | the inner loop `for(b...; pending; ...)` only ends when `pending` is 0, so `a` never leaves 0 and only the pairs (0, b) are checked | the 3-chain 0 < 1 < 2 with h = [0, 2, 1]: every pair (0, b) is consistent, so h comes back unchanged, but h[1 ∨ 2] = 1 ≠ 2 = h[1] ∨ h[2] | repair until every pair a < b is consistent, as in the loop left commented out at lattices.js:1041-1056 | high, not executed | Easy.EasyMissesPairs | Easy.GMeetEasyAllPairs |
| lattices.js:1101-1117 | the rounds visit only `uncomparables` and never make h monotone, so comparable pairs are never repaired | the 2-chain 0 < 1 with h = [1, 0]: there is no incomparable pair, so h comes back unchanged, and it is not monotone | visit every pair a < b | medium, not executed | Easy.Easy3MissesComparable | Easy.GMeetEasyAllPairs |
| lattices.js:1074-1098 | the queue only visits the triples whose join is neither element, and h is never made monotone first | the 2-chain with h = [1, 0]: no triple is listed, so h comes back unchanged | list every pair, or make h monotone first as GMeetMonoDfs does | medium, not executed | Easy2.Easy2MissesComparable | Easy2.GMeetEasy2AllPairs |
