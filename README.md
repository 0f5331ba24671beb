# Formal concept analysis core of PCA.py, modelled in Dafny

`PCA.py` computes the concepts of binary and n-ary formal contexts, the
Duquenne–Guigues implication basis, minimal generators, and the covering
relation between concepts. A context is a relation (a list of incidence tuples)
together with one size per dimension. Dimension 0 holds the objects and the
other dimensions hold attributes. This project models that algebra:

- `SetHelpers` (`sets.dfy`): componentwise inclusion of concepts (`subsetConcepts`) and the Cartesian extensions `combi` / `combiSet`, in the source's order.
- `Implications` (`closure.dfy`): `logicalClosure`, the least superset closed under a list of implications, reached by repeated passes.
- `Contexts` (`context.dfy`): `Intent` / `Extent` and the Galois connection between them.
- `Lectic` (`lectic.dfy`): the lectic order and Ganter's NextClosure step for any closure operator. Element `i` is decided before every smaller element.
- `Walkers` (`walkers.dfy`): `oplus`, `Next` and `NextClosure` on object sets, and their implication-driven twins `oplusDG` and `NextDG`.
- `Transforms` (`transforms.dfy`): `multi2Bi` (flattening), `sliceContext` and `support`.
- `Basis` (`basis.dfy`): `NextClosureDG`, the Duquenne–Guigues basis walk.
- `Generators` (`generators.dfy`): `aMinGenImp` and the worklist `allMinGensImp`.
- `Hypergraph` (`hypergraph.dfy`): the complement-hypergraph edges written by `makeHypergraphFile`, `trans2Concept`, and the row parsing in `minTrans`.
- `Neighbours` (`neighbours.dfy`): `buildNeighbouringRelation`.
- `Wrappers` (`wrappers.dfy`): `Option` and `Result`. Python exceptions that the code can raise (`IndexError`, and the `TypeError` of `len(None)`) become `Fail` values.

A Python context `[R, n_0, ..., n_k]` is `Context(R, [n_0, ..., n_k])`. So `context[i + 1]` is `sizes[i]`.
Loops of the source are Dafny methods, each proved against a specification function. The lemmas then state properties of those functions.
Python's iteration over a set has an unspecified order, modelled by an arbitrary choice. Every contract holds for every order.

Where the code and the design description disagree, the model follows the code:

- Flattening in `multi2Bi` indexes every combination of coordinates of dimensions 2..k in `combi` order, not only the combinations that occur in the relation.
- When the solver's output has fewer rows than its widest row plus three, `minTrans` fails with an index error from `pop`. No dedicated "empty output" condition exists.
- `NextClosureDG` stops on the number of objects, not attributes (see Findings).

## Model

| member | source | states |
|---|---|---|
| SetHelpers.SubsetConcepts | PCA.py:20-25 | the result is true exactly when every component after the first is a subset of the same component of the other concept |
| SetHelpers.BelowTransitive | PCA.py:20-25 | componentwise inclusion is transitive |
| SetHelpers.Combi | PCA.py:30-39 | the result is the Cartesian extension of the family by 0..n-1, family member slowest and new coordinate fastest |
| SetHelpers.ProductMember | PCA.py:30-53 | a tuple is in the extension exactly when its last coordinate is one of the values and the rest is in the family |
| SetHelpers.ProductLength | PCA.py:30-39 | the extension has one tuple per pair of family member and value |
| SetHelpers.ProductDistinct | PCA.py:30-53 | extending a repetition-free family by distinct values repeats no tuple |
| SetHelpers.CombiSet | PCA.py:44-53 | the result is the Cartesian extension by the set's elements in some iteration order that lists each element once |
| SetHelpers.CombiSetMember | PCA.py:44-53 | membership in the extension does not depend on the set's iteration order |
| SetHelpers.AllTuples | PCA.py:81-83 | repeated `combi` from `[[]]` yields exactly the in-box tuples, each once |
| SetHelpers.TuplesMember | PCA.py:81-83 | a tuple is produced exactly when each coordinate is below its dimension size |
| SetHelpers.TuplesDistinct | PCA.py:81-83 | the produced tuples are pairwise distinct |
| Implications.LogicalClosure | PCA.py:58-68 | the result is the least closure: it contains the start set, is closed under every rule, and adds only elements of rule conclusions |
| Implications.FixBounds | PCA.py:58-68 | the closure contains the start set and adds only conclusion elements |
| Implications.FixClosed | PCA.py:58-68 | the closure is closed under every implication |
| Implications.FixLeast | PCA.py:58-68 | the closure lies inside every closed superset of the start set |
| Implications.FixOfClosed | PCA.py:58-68 | a closed set is its own closure |
| Implications.FixMonotone | PCA.py:58-68 | a larger start set has a larger closure |
| Implications.FixIdempotent | PCA.py:58-68 | closing twice is closing once |
| Implications.UnchangedPassClosed | PCA.py:61-67 | a pass that adds nothing means the set is closed |
| Implications.ClosedPassUnchanged | PCA.py:61-67 | a pass over a closed set adds nothing |
| Implications.PassBelowClosed | PCA.py:61-67 | a pass never leaves a closed superset |
| Implications.Progress | PCA.py:61-67 | a pass that grows the set shrinks the part of the conclusions still missing, so the loop terminates |
| Contexts.Intent | PCA.py:139-148 | the result is the set of attributes below the attribute count that every given object has |
| Contexts.Extent | PCA.py:152-161 | the result is the set of objects below the object count that have every given attribute |
| Contexts.IntentAntitone | PCA.py:139-148 | more objects share fewer attributes |
| Contexts.ExtentAntitone | PCA.py:152-161 | more attributes are shared by fewer objects |
| Contexts.GaloisConnection | PCA.py:139-161 | in-range objects lie in the extent of in-range attributes exactly when those attributes lie in the objects' intent |
| Contexts.ObjectClosureExtensive | PCA.py:139-161 | Extent(Intent(S)) contains every in-range object set S |
| Contexts.AttributeClosureExtensive | PCA.py:139-161 | Intent(Extent(T)) contains every in-range attribute set T |
| Contexts.ExtentIsClosed | PCA.py:139-161 | an extent is fixed by Extent∘Intent |
| Contexts.IntentIsClosed | PCA.py:139-161 | an intent is fixed by Intent∘Extent |
| Contexts.ObjectClosureIdempotent | PCA.py:139-161 | Extent∘Intent applied twice equals once |
| Contexts.AttributeClosureIdempotent | PCA.py:139-161 | Intent∘Extent applied twice equals once |
| Contexts.ObjectClosureMonotone | PCA.py:139-161 | Extent∘Intent is monotone |
| Contexts.AttributeClosureMonotone | PCA.py:139-161 | Intent∘Extent is monotone |
| Contexts.ClosureImplicationHolds | PCA.py:139-161 | an object with every attribute of T has every attribute of Intent(Extent(T)) |
| Lectic.LecticIrreflexive | PCA.py:176-185 | no set is lectically below itself |
| Lectic.LecticTransitive | PCA.py:176-185 | the lectic order is transitive |
| Lectic.LecticAsymmetric | PCA.py:176-185 | the lectic order is asymmetric |
| Lectic.LecticTotal | PCA.py:176-185 | two different sets are lectically comparable |
| Lectic.SubsetLectic | PCA.py:176-185 | a proper subset is lectically smaller |
| Lectic.LecticRank | PCA.py:176-185 | the lectic order embeds into the numbers below 2^n, which bounds every walk |
| Lectic.ScanStep | PCA.py:177-185 | scanning index i either accepts it (i not in A and no new element below i) or moves on to lower indices |
| Lectic.NextSetNone | PCA.py:176-185 | the scan finds no index exactly when A holds every index below n |
| Lectic.NextIsSuccessor | PCA.py:176-185 | the accepted set differs from A first at the chosen index, which it gains |
| Lectic.NextAdvances | PCA.py:176-185 | the next set is lectically larger, stays in range, and has a larger rank |
| Lectic.NextExists | PCA.py:176-185 | a set missing some index below n always has a next set |
| Lectic.NextIsLeast | PCA.py:176-185 | the next set is the lectically least closed set above A (Ganter's theorem) |
| Lectic.EnumerateStart | PCA.py:191 | starting from the closure of the empty set, no closed set has been skipped |
| Lectic.EnumerateStep | PCA.py:192-194 | each step keeps the list strictly increasing and skips no closed set |
| Lectic.EnumerateEnd | PCA.py:195 | on reaching the full set, every closed set is listed, in strictly increasing lectic order |
| Walkers.GaloisClosureFacts | PCA.py:165-172 | Extent∘Intent is a closure operator on object sets below the object count |
| Walkers.LogicalClosureFacts | PCA.py:200-207 | closure under implications with in-range conclusions is a closure operator |
| Walkers.Truncate | PCA.py:166-169 | the result keeps exactly the elements of A up to a |
| Walkers.Oplus | PCA.py:165-172 | the result is Extent∘Intent of the truncation plus a, and it is a closed extent |
| Walkers.NoNewBelow | PCA.py:180-183 | the flag is true exactly when B adds no element below i to A |
| Walkers.Next | PCA.py:176-185 | the result is the lectic successor over the objects; it is None exactly when A already holds every object |
| Walkers.ExtentsStep | PCA.py:192-194 | while A is not the full object set, Next succeeds, skips no extent and raises the rank |
| Walkers.ExtentsEnd | PCA.py:195 | on leaving the loop, A is the full object set and every extent has been listed in strictly increasing lectic order |
| Walkers.NextClosure | PCA.py:189-196 | the result is every formal concept (extent, intent) exactly once in strictly increasing lectic order, from the closure of the empty set to the full object set |
| Walkers.OplusDG | PCA.py:200-207 | the result is the implication closure of the truncation plus a; it is closed |
| Walkers.NextDG | PCA.py:211-220 | the result is the lectic successor among implication-closed attribute sets; it is None exactly when A already holds every attribute |
| Transforms.Multi2Bi | PCA.py:225-245 | the lookup table lists every coordinate combination of dimensions 2..k in `combi` order; each tuple becomes its object paired with the first table index of its remaining coordinates |
| Transforms.Lookup | PCA.py:239-242 | the result is the first table index whose entry equals the tail, and none when the tail is not in the table |
| Transforms.FlattenRoundTrip | PCA.py:225-245 | for a well-formed context, expanding each flattened pair through the table gives back the relation |
| Transforms.FlattenWellFormed | PCA.py:225-245 | the flattened context is a well-formed binary context |
| Transforms.FoundTail | PCA.py:239-242 | the remaining coordinates of every in-box tuple are found in the table |
| Transforms.SliceContext | PCA.py:282-292 | the result keeps the tuples whose coordinate at the dimension equals the element, drops that coordinate, and drops the dimension's size |
| Transforms.SliceIff | PCA.py:282-292 | a tuple is in the slice exactly when reinserting the element at the dimension gives a tuple of the relation |
| Transforms.SliceWellFormed | PCA.py:282-292 | slicing a well-formed context gives a well-formed context |
| Transforms.InsertRemove | PCA.py:282-309 | reinserting a removed coordinate restores the tuple |
| Transforms.RemoveInsert | PCA.py:282-309 | removing an inserted coordinate restores the tuple |
| Transforms.Support | PCA.py:297-317 | the result is the set of elements of the dimension whose insertion into every tuple of the concept's product gives a tuple of the relation |
| Transforms.SupportViaSlices | PCA.py:297-317 | an element is in the support exactly when the concept's product lies inside the slice of that element |
| Basis.BinaryWellFormed | PCA.py:403-404 | flattening keeps a well-formed context well formed |
| Basis.DGWalkFacts | PCA.py:405-411 | the walk fails exactly when its bound exceeds the attribute count; otherwise every recorded implication is [A, Intent(Extent(A))] with A ≠ B, premises are lectically increasing and closed under the earlier ones, and with the attribute count as bound the sets closed under the list are exactly the intents |
| Basis.DGWalkFails | PCA.py:407-411 | the walk can only fail by `len(None)` |
| Basis.NextClosureDG | PCA.py:400-412 | as written: fails with TypeError exactly when attributes are fewer than objects; any result is sound, lectically ordered and closed under earlier premises |
| Basis.NextClosureDGCorrected | PCA.py:400-412 | with the loop bound on attributes: always succeeds, and the list is sound and complete (its closed sets are exactly the intents) |
| Basis.AsWrittenMissesImplication | PCA.py:407 | with one object and two attributes, the walk as written returns no implication though `{1}` is not an intent |
| Generators.AMinGenImp | PCA.py:248-255 | the result is a subset of the set with the same closure, and dropping any of its elements changes the closure |
| Generators.MinGenNoProperSubset | PCA.py:248-255 | no proper subset of a minimal generator has its closure |
| Generators.ExchangeKeepsClosure | PCA.py:263-270 | swapping an implication's conclusion for its premise within the set keeps the closure |
| Generators.NoneInside | PCA.py:271-274 | the flag is true exactly when no recorded generator lies inside Y |
| Generators.AllMinGensImp | PCA.py:259-278 | every listed generator is a minimal generator of the set; no generator contains an earlier one, so none repeats; the list has at most 2^|Set| entries, so the worklist terminates |
| Generators.DistinctSubsetsBound | PCA.py:259-278 | a list of distinct subsets of a set has at most 2^size entries |
| Hypergraph.MakeHypergraphEdges | PCA.py:78-95 | the edges are the renumbered in-box tuples absent from the relation, in `combi` order; with no dimension and the empty tuple absent, the write fails with an index error |
| Hypergraph.ShiftCoordinates | PCA.py:87-92 | coordinate e is written shifted by the sum of the earlier dimension sizes |
| Hypergraph.ComplementEdgesMember | PCA.py:81-93 | a vertex list is an edge exactly when it is the renumbering of an in-box tuple not in the relation |
| Hypergraph.ShiftRoundTrip | PCA.py:87-109 | subtracting the offsets gives back the tuple |
| Hypergraph.ShiftInBlock | PCA.py:87-92 | each coordinate's vertex lies in the block of its own dimension |
| Hypergraph.DecimalRoundTrip | PCA.py:89-106 | reading a decimal numeral back gives the number |
| Hypergraph.DecimalInjective | PCA.py:106 | two numbers have the same numeral exactly when they are equal |
| Hypergraph.Trans2Concept | PCA.py:99-111 | the result has one set per dimension; each is the dimension's values whose shifted numeral is not in the transversal |
| Hypergraph.BlockComplement | PCA.py:104-108 | the result is the set of values of one dimension whose shifted numeral is not in the transversal |
| Hypergraph.TransversalIffBoxInside | PCA.py:81-111 | a vertex set meets every complement edge exactly when every tuple spanned by the decoded concept is in the relation |
| Hypergraph.SplitJoin | PCA.py:121-124 | joining the split pieces with the separator gives back the string |
| Hypergraph.JoinSplit | PCA.py:121-124 | splitting a join of separator-free pieces gives back the pieces |
| Hypergraph.SplitRows | PCA.py:121-127 | the rows are the output lines split at spaces, and the count is the width of the widest row |
| Hypergraph.MinTrans | PCA.py:119-131 | the result drops the last (widest row + 3) rows of the split output, and fails when there are fewer rows |
| Hypergraph.MinTransRowsFacts | PCA.py:119-131 | on success the output has at least four lines, the kept rows are its leading lines split into space-free fields that join back into each line |
| Neighbours.BuildNeighbouringRelation | PCA.py:418-439 | as written: the result follows the scan whose index range is fixed before removals |
| Neighbours.CandidatesOf | PCA.py:421-435 | as written: the result is the candidate list of one concept after the scan over every concept |
| Neighbours.ScanCandidates | PCA.py:426-433 | as written: the result follows the scan over the index range fixed at its start, and fails once removals have shortened the list below the index |
| Neighbours.AsWrittenEdgesAbove | PCA.py:418-439 | when the scan as written succeeds, each edge joins a concept to a different concept of the list above it |
| Neighbours.AsWrittenFailsOnExample | PCA.py:427-433 | on four concepts of a three-object context, the scan as written raises an index error |
| Neighbours.UpdateCandidates | PCA.py:426-435 | corrected scan: keeps the candidates not strictly above D, then adds D when no candidate lies below it |
| Neighbours.BuildNeighbouringRelationCorrected | PCA.py:418-439 | the result lists the corrected candidates of each concept, in input order |
| Neighbours.NeighbouringRelationCovers | PCA.py:418-439 | each edge joins a concept to a different one above it with no concept above the lower end strictly below the upper end; every concept above another lies above the upper end of one of its edges |
| Neighbours.CorrectedOnExample | PCA.py:418-439 | on the failing example, the corrected scan finds the single upper neighbour |

## Left out

- File handling in `makeHypergraphFile` (PCA.py:79, 89-95) is I/O. `Hypergraph.MakeHypergraphEdges` returns the edge list that would be written.
- The `shd.exe` process call in `minTrans` (PCA.py:115-117) is a foreign process. `Hypergraph.MinTrans` takes the process output as a parameter.
- `concepts` (PCA.py:327-345) only wires file creation, the external solver and removal around the modelled edge and decoding functions. Minimality of solver transversals is not modelled, so the one-to-one match between minimal transversals and concepts is not proved. `Hypergraph.TransversalIffBoxInside` proves the underlying equivalence for every transversal.
- `properPremises` (PCA.py:350-395) writes a temporary file and takes its premises from the external solver.
- `associationRules` (PCA.py:443-449) needs solver-produced concepts, and its confidence is a floating-point division.
- `introducersDimension` and `allIntroducers` (PCA.py:453-497) call the external solver for every slice.
- Numpy (PCA.py:238, 357) only slices tuples. This is modelled with sequence operations.
- Basis.NextClosureDGCorrected: proves soundness and completeness of the list, but not its minimality (that every premise is a pseudo-intent).
- Generators.AllMinGensImp: does not prove that every minimal generator of the set is found.
- Neighbours.BuildNeighbouringRelation and Neighbours.BuildNeighbouringRelationCorrected: require all concepts to have the same number of components, as the concepts of one context do. Otherwise `subsetConcepts` would index past a shorter concept.
- Transforms.Multi2Bi: requires the object count to be present, and that no empty tuple matches a table entry. Otherwise `context[1]` or `T[0]` raises an index error that is not modelled.

## Findings

| source | as written | input that shows it | evidently intended | confidence | as-written member | corrected member |
|---|---|---|---|---|---|---|
| PCA.py:407 | the loop runs while `len(A) < context[1]`, the number of objects, but `NextDG` ranges over `context[2]` attributes | 1 object, 2 attributes, no incidence: the walk stops at `{1}` and returns no implication, though `{1} -> {0, 1}` holds. 3 objects and 2 attributes: `NextDG` returns `None` and `len(None)` raises TypeError | loop while `len(A) < context[2]` | not executed | Basis.NextClosureDG, Basis.AsWrittenMissesImplication | Basis.NextClosureDGCorrected |
| PCA.py:427-433 | candidates are popped inside `for i in range(len(Candidates))`, whose range is fixed before the pops; `i = i-1` has no effect | concepts `[{0,1,2},{}]`, `[{0},{0,1}]`, `[{1},{0,2}]`, `[{0,1},{0}]` in this order: the third candidate removes the first, and index 1 is then past the end (IndexError) | drop every candidate strictly above the new concept and keep scanning the rest | not executed | Neighbours.BuildNeighbouringRelation, Neighbours.AsWrittenFailsOnExample | Neighbours.BuildNeighbouringRelationCorrected, Neighbours.NeighbouringRelationCovers |
