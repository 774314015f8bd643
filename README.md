# Half-edge face tracing of a contiguity graph

This project models the boundary-detection core of `MapData` in
`discretecompactness/exportPerims.py`. The contiguity graph of a set of map
units is turned into directed half-edges. Each half-edge gets a successor,
and the successor chains are walked to find the faces of the planar dual.
Three parts are modelled, plus the choice of the outer face:

- **Construction (`get_edges`).** For every point `i` and every neighbour `j`
  of `i`, in order, one half-edge `i->j` is created. It goes into `i`'s fan,
  the list of half-edges leaving `i`, and `j` is appended to `i`'s list of
  neighbours.
- **Successor selection (`calc_small_angle` and the loop of
  `generate_edges`).**
  - Each half-edge `u->v` considers every half-edge leaving `v` as a
    candidate, including `v->u`.
  - For each candidate it takes the turning angle, with angles at or below
    zero moved up by 360 degrees.
  - It sorts the candidates by angle, records the sorted angles, and keeps
    the candidate with the smallest angle as its successor.
- **Face tracing (`find_boundaries` and the recursive `next_vertex`).**
  - Every half-edge that is not yet traversed starts a walk along
    successors.
  - A walk that reaches a traversed half-edge is abandoned. Nothing is
    marked and nothing is recorded.
  - A walk that reaches a half-edge already on it has closed a cycle. That
    cycle is the part of the walk from the first occurrence of the repeated
    half-edge. It is marked traversed and appended to the face list.
- **Outer face (`print_face_list`).** The face list is stable-sorted by
  length, and its last entry is taken to be the outer boundary.

Representation:

- Points are ids `0..N-1`. The neighbour relation is a `seq<seq<nat>>`
  indexed by point id.
- Half-edges live in an arena and are numbered `0..M-1` in creation order.
  `origin`, `dest` and `next` are sequences indexed by half-edge id.
- The traversed flags are an `array<bool>` owned by the `MapData` class,
  which also holds the face list. The recursive walk and the tracing loop
  are methods of that class.
- The turning angle is an abstract function `RawAngle(u, v, w)`: the signed
  angle at `v` from the direction back to `u` to the direction towards `w`.

Modules:

- `Basics` (basics.dfy): option and result types, distinctness, first
  index, and pigeonhole.
- `Angles` (angles.dfy): normalisation, sorting (angle, half-edge) pairs,
  and `CalcSmallAngle`.
- `HalfEdges` (half_edges.dfy): the arena, `GetEdges` and `GenerateEdges`.
- `FaceOrder` (face_order.dfy): the stable sort by length and the outer
  face.
- `Tracing` (tracing.dfy): walks, faces, the `MapData` class and `Load`.

Three behaviours of the code that the model keeps:

- **Tied angles.** When two candidates share a normalised angle, the sort of
  `(angle, Edge)` tuples falls through to comparing `Edge` objects. These
  have no ordering, so construction raises an error. The model returns
  `Err(TiedAngles)`; no tie-breaking by input order is assumed.
- **Empty fan.** When a half-edge's destination has no outgoing half-edge,
  unpacking the empty sort fails. The model returns `Err(EmptyFan)`.
- **Outer face.** The outer face is the last entry after a stable sort by
  length. Among several longest faces it is therefore the one discovered
  last.

The tracing also keeps a quirk of the code. When a walk from `e0` closes on a
cycle that does not pass through `e0`, that cycle is still recorded. `e0` and
the lead-in before the cycle stay untraversed, and this pass does not retry
them. `LeadInNeverTraced` shows a three-edge example where a half-edge ends on no
face. For that reason the partition of all half-edges into faces
(`FindBoundaries`) is proved only when no two half-edges share a successor.
In that case every walk closes on its own start.

The loop of `find_boundaries` is specified by a fold: `Visit` is one pass at
a half-edge, `Run` applies passes along a sequence of half-edges, and
`FanOrder` lists the half-edges fan by fan. `FindBoundaries` ends in exactly
the state `Run` gives over `FanOrder`, and the properties of the faces are
proved about `Run`.

## Model

| member | source | states |
|---|---|---|
| Basics.IndexOf | discretecompactness/exportPerims.py:107 | the position found holds the repeated half-edge and is its first occurrence in the walk |
| Basics.DistinctLength | discretecompactness/exportPerims.py:73-89 | a walk of distinct half-edge ids below M has at most M entries, so the recursion of `next_vertex` ends |
| Angles.Normalise | discretecompactness/exportPerims.py:138-140 | every angle at or below zero is moved up by exactly 360 and every positive angle is unchanged; any raw angle in (-360, 360] lands in (0, 360] |
| Angles.SortByAngleSorts | discretecompactness/exportPerims.py:142 | the sorted pairs ascend by angle, carry exactly the input angles, and ascend strictly when no two angles tie |
| Angles.HeadOfRearrangement | discretecompactness/exportPerims.py:142-144 | in any strictly ascending rearrangement of the candidate pairs, the head is the candidate whose angle is below every other candidate's, and the recorded angles are a permutation of the candidates' angles |
| Angles.SortedHeadIsSmallest | discretecompactness/exportPerims.py:142-144 | the first entry of the sorted candidates is the candidate with the smallest normalised angle, and the recorded angles are all the candidates' angles in strictly ascending order |
| Angles.SortByAngle | discretecompactness/exportPerims.py:142 | the sorted candidate pairs are a permutation of the input pairs |
| Angles.CalcSmallAngle | discretecompactness/exportPerims.py:128-144 | it fails with EmptyFan exactly when there is no candidate, and succeeds exactly when the candidates are non-empty with no tied angles; a failure carries the error `SelectionFailure` gives for the half-edge's candidate angles; on success the successor is the candidate of smallest normalised angle and the recorded angles are those angles sorted strictly ascending |
| HalfEdges.GetEdges | discretecompactness/exportPerims.py:116-126 | one half-edge `i->neighbors[i][k]` exists for every entry, at position k of `i`'s fan; every half-edge lies in its origin's fan exactly once; each point's neighbour list equals its input list |
| HalfEdges.FailedChoice | discretecompactness/exportPerims.py:142 | when the selection for a half-edge fails, some half-edge of the input has an empty or tied candidate set |
| HalfEdges.AllChosenSelectable | discretecompactness/exportPerims.py:147-151 | if every half-edge got a successor, then every half-edge of the input had a non-empty, tie-free candidate set |
| HalfEdges.ChosenGraphValid | discretecompactness/exportPerims.py:150-151 | when every successor is the selection's choice, each successor leaves the destination of its half-edge, so `next` stays inside the arena |
| HalfEdges.FirstFailureUnique | discretecompactness/exportPerims.py:148-150 | at most one half-edge is the first, in point order and then fan order, whose selection fails, so it fixes a single error |
| HalfEdges.FirstFailureExists | discretecompactness/exportPerims.py:148-150 | some half-edge's selection fails exactly when there is a first such half-edge in point order and then fan order |
| HalfEdges.GenerateEdges | discretecompactness/exportPerims.py:147-153 | construction succeeds exactly when every half-edge has a non-empty, tie-free candidate set; on failure the error is the one raised at the first half-edge, in point order and then fan order, whose selection fails: EmptyFan when it has no candidate, TiedAngles when two candidate angles tie; on success the arena is the one `GetEdges` builds, each successor leaves its half-edge's destination, and each successor and angle list are the selection's choice over that destination's fan |
| FaceOrder.SortByLength | discretecompactness/exportPerims.py:158 | the sorted face list is a permutation of the face list |
| FaceOrder.SortByLengthSorts | discretecompactness/exportPerims.py:158 | the faces sorted by length are in non-decreasing order of length |
| FaceOrder.SortIsStable | discretecompactness/exportPerims.py:158 | faces of equal length keep their relative order through the sort |
| FaceOrder.OuterFaceIsLongest | discretecompactness/exportPerims.py:158-162 | the last face after sorting is a face of the list, at least as long as every face, and no later-discovered face is as long |
| Tracing.Walk | discretecompactness/exportPerims.py:75-83 | the walk followed from a prefix keeps that prefix and stays a chain of distinct, untraversed half-edges |
| Tracing.WalkStops | discretecompactness/exportPerims.py:75-89 | the followed walk ends only where the next half-edge is already on it or traversed |
| Tracing.SuffixIsFace | discretecompactness/exportPerims.py:88-89 | the part of a walk from the half-edge it returns to is a closed chain of distinct, untraversed half-edges |
| Tracing.ClosesAtStart | discretecompactness/exportPerims.py:75-89 | when no two half-edges share a successor and every predecessor of a traversed half-edge is traversed, a walk can only stop by returning to its starting half-edge |
| Tracing.PrefixStaysUntraversed | discretecompactness/exportPerims.py:107-110 | marking the cycle part of a walk leaves every half-edge of the lead-in before it untraversed |
| Tracing.AddFace | discretecompactness/exportPerims.py:109-112 | appending a closed face of untraversed half-edges and marking it keeps the faces pairwise disjoint, and keeps a half-edge traversed exactly when it started traversed or lies on a recorded face |
| Tracing.MarkKeepsPredClosed | discretecompactness/exportPerims.py:109-110 | when no two half-edges share a successor, marking a whole face keeps every predecessor of a traversed half-edge traversed |
| Tracing.Visit | discretecompactness/exportPerims.py:97-112 | one pass of the tracing loop at a half-edge only sets flags, never clears them, and appends at most one face while keeping every face recorded before |
| Tracing.FanOrder | discretecompactness/exportPerims.py:93-96 | the visiting order holds exactly the half-edges of the fans of the points before `p` |
| Tracing.Run | discretecompactness/exportPerims.py:93-112 | passes along a sequence of half-edges only set flags, keep every face recorded before, and append at most one face per pass |
| Tracing.VisitRecords | discretecompactness/exportPerims.py:97-112 | one pass appends a face exactly when its half-edge is untraversed and the half-edge after the walk from it lies on that walk, and then appends exactly one; that face is the tail of the walk from the repeated half-edge, a closed chain of distinct previously untraversed half-edges; exactly its half-edges get marked and the lead-in stays untraversed; otherwise flags and faces are unchanged |
| Tracing.VisitCovers | discretecompactness/exportPerims.py:97-112 | when no two half-edges share a successor and every predecessor of a traversed half-edge is traversed, a pass leaves its half-edge traversed and keeps that closure |
| Tracing.VisitSound | discretecompactness/exportPerims.py:107-112 | a pass keeps every face recorded so far and keeps the new faces closed, pairwise disjoint and made of half-edges untraversed at the start, with the flags set exactly on them |
| Tracing.RunSound | discretecompactness/exportPerims.py:93-112 | any sequence of passes only appends faces, and the appended faces are closed, pairwise disjoint, previously untraversed, and exactly the newly set flags |
| Tracing.RunCovers | discretecompactness/exportPerims.py:93-112 | when no two half-edges share a successor and traversal starts closed under predecessors, every half-edge a pass was made at ends traversed |
| Tracing.RunConcat | discretecompactness/exportPerims.py:93-96 | the passes over one fan after another are the passes over their concatenation |
| Tracing.FanOrderHasAll | discretecompactness/exportPerims.py:93-96 | the loop over every point's fan visits every half-edge |
| Tracing.TraceOutcome | discretecompactness/exportPerims.py:93-112 | the trace over all fans only appends faces and keeps tracing sound; when no two half-edges share a successor and nothing was traversed, every half-edge ends traversed and on a new face |
| Tracing.LeadInNeverTraced | discretecompactness/exportPerims.py:101-112 | with successors 0->1, 1->2, 2->1 the trace records only the face [1, 2], a cycle not through the starting half-edge 0, and leaves 0 untraversed and on no face |
| Tracing.FaceIsOrbit | discretecompactness/exportPerims.py:107-112 | from any half-edge of a recorded face, following the successor as many times as the face is long leads back to it, and no fewer positive steps do |
| Tracing.MapData.constructor | discretecompactness/exportPerims.py:178-193 | a new `MapData` holds the given graph, every half-edge flag is false, and the face list is empty |
| Tracing.MapData.NextVertex | discretecompactness/exportPerims.py:73-89 | if the half-edge after the maximal walk `Walk` from `edgeList` is on that walk, it is returned together with the walk; otherwise nothing is returned and the list is popped back to exactly `edgeList` |
| Tracing.MapData.MarkTraversed | discretecompactness/exportPerims.py:109-110 | the flags become the old flags with exactly the face's half-edges set |
| Tracing.MapData.CloseWalk | discretecompactness/exportPerims.py:107-112 | the part of the walk from the repeated half-edge is a closed chain of previously untraversed half-edges; it is appended to the face list and exactly its half-edges get marked |
| Tracing.MapData.TraceFrom | discretecompactness/exportPerims.py:97-112 | one pass of the tracing loop: the new flags and face list are exactly those `Visit` gives, so a closed walk from an untraversed half-edge is always recorded, whether or not it closes on its start (see `VisitRecords`) |
| Tracing.MapData.TraceFan | discretecompactness/exportPerims.py:94-112 | the inner loop over one point's fan, started from the state the passes over the earlier fans left, leaves exactly the state of the passes over the fans up to and including this one |
| Tracing.MapData.TraceAllFans | discretecompactness/exportPerims.py:93-112 | the loops over every point's fan leave exactly the state of the passes at all half-edges in `FanOrder` |
| Tracing.MapData.FindBoundaries | discretecompactness/exportPerims.py:93-112 | the flags and face list end as the passes at every half-edge, fan by fan in point order, leave them, which fixes which faces are recorded and in what order; faces are only appended; each new face is a closed chain of distinct half-edges that were untraversed before; new faces are pairwise disjoint; a half-edge ends traversed exactly when it started traversed or lies on a new face; when no two half-edges share a successor and nothing was traversed, the new faces cover every half-edge |
| Tracing.MapData.OrderFaces | discretecompactness/exportPerims.py:158-162 | the face list is replaced by its stable sort by length, and the outer face is present exactly when there is a face, is the last entry, and is at least as long as every face |
| Tracing.Load | discretecompactness/exportPerims.py:178-193 | building a `MapData` succeeds exactly when every half-edge has a non-empty, tie-free candidate set; on failure the error is the one raised at the first half-edge, in point order and then fan order, whose selection fails (EmptyFan or TiedAngles); on success it yields the arena of the input, each successor and angle list being the selection's choice over its destination's fan, with no flag set and no face |

## Left out

- Reading the shapefile, computing centroids and building the rook weights (`discretecompactness/exportPerims.py:199-244`) is file I/O and calls into geopandas and pysal. The model takes point ids and a neighbour sequence as input.
- The turning angle itself (atan2 of the determinant and dot product, converted to degrees) is floating-point trigonometry. It is a parameter `RawAngle` of the model, and only its normalisation and the sort are modelled.
- Angles.Normalise: the model adds 360 in exact real arithmetic, while `angles[i] += 360` (`discretecompactness/exportPerims.py:139-140`) is a float64 addition that rounds. Two different raw angles can therefore round to the same normalised value. A raw angle of -1e-15 degrees becomes 360.0, the value a raw angle of 0 also gets. The program then sees a tie, and the sort at line 142 raises TypeError, but the model sees distinct angles and succeeds. A tie that only this rounding creates is not modelled, so `TiedAngles` in `CalcSmallAngle`, `GenerateEdges` and `Load` covers only ties of the exact normalised angles.
- The centroid dictionary is keyed by x and then y, so two points sharing an x coordinate overwrite one another. The model identifies points by id and does not reproduce that collision.
- Dictionary iteration order: the neighbour map and the centroid dictionary are assumed to iterate in point-id order, so half-edges are created and traced fan by fan in id order.
- `Edge.adjs` (line 151) is not stored. It is always the fan of the half-edge's destination, `fans[dest[e]]`, which the model reads directly.
- Plotting in `print_face_list` is left out, as are the hard-coded check for faces of length 135 and `show_map`. Only the sort by length and the choice of the last face are modelled.
- The GAL export, `print_edge` and the empty `build_face_matrix` stub produce output or do nothing.
- Python's recursion-depth limit on `next_vertex` is not modelled. The model's recursion is bounded by the number of half-edges.
- Tracing.MapData.FindBoundaries: the statement that the faces cover every half-edge is proved only when no two half-edges share a successor and no flag was set beforehand. Without injectivity, a walk can close on a cycle that does not contain its start, and that lead-in is never traced.
