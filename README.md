# GJK and EPA collision core, modelled in Dafny

This project models the narrow-phase collision code of the SFML-collisions demo
(`collision/main.cpp`, lines 14-232). That code decides whether two convex polygons overlap and how far
to push one out of the other. It has three parts:

- **Primitives and support mapping.** `dot`, `GetFurthestInDirection` (the first vertex of largest
  projection onto a direction) and `Support` (a vertex difference of the Minkowski difference A - B that
  is extreme in a direction).
- **GJK** (Gilbert-Johnson-Keerthi). `ContainsOrigin` does one step on the simplex: it checks a triangle
  for the origin, or drops a point and picks a new search direction. `AreColliding` is the capped outer
  loop.
- **EPA** (Expanding Polytope Algorithm). `FindClosestEdge` scans the simplex as a closed polygon.
  `FindPenetrationDistance` is the capped loop that inserts support points until the closest edge stops
  moving.

Modelling choices:

- Coordinates are exact `real`s, so every sign test of the source is an exact fact.
- A shape is the non-empty sequence of its vertices, already in world space.
- The simplex (a `std::vector` passed by reference) is a `seq<Vec>`. A method takes it in and returns
  its new contents, keeping the source's order: the newest GJK point is last, and EPA inserts at the
  chosen edge's index.
- The loops keep the source's form and its caps: `while (++i < 100)` allows passes 1 to 99.
- The normalisation `n *= 1 / sqrt(dot(n, n))` is a parameter `invNorm: Vec -> Positive`. It gives the
  positive factor that a normal is multiplied by. The proved properties hold for every positive factor.
  Which edge is chosen depends on the values of the factor, and the model leaves those open.
- Each capped loop is specified by a ghost recursive function that mirrors it pass by pass: `Run` for
  the overlap loop and `Search` for the penetration loop. Each loop method is proved to return exactly
  that function's result.

Source files are cited relative to the repository root.

Modules:

- `Geometry` (geometry.dfy): the vector type and the dot-product facts.
- `ArgMax` (argmax.dfy): the "strictly better replaces" scan that both `GetFurthestInDirection` and
  `FindClosestEdge` perform.
- `Minkowski` (support.dfy): the furthest-point query and `Support`.
- `Gjk` (gjk.dfy): the overlap test.
- `Epa` (epa.dfy): the penetration search.

## Model

| member | source | states |
|---|---|---|
| `Geometry.Dot` | collision/main.cpp:14-16 | no contract of its own; the definition is `dot` of lines 14-16, `a.x * b.x + a.y * b.y` on exact reals |
| `Geometry.Perp` | collision/main.cpp:89 | no contract of its own; the definition is the perpendicular `(-e.y, e.x)` built at lines 89, 159, 172 and 192; its properties are the rows `PerpOrthogonal` and `PerpNonZero` |
| `Geometry.Abs` | collision/main.cpp:123 | `fabs`: the result is non-negative and equals the argument or its negation |
| `Geometry.PerpOrthogonal` | collision/main.cpp:86-89 | the perpendicular `(-e.y, e.x)`, flipped or not, has zero projection onto `e` |
| `Geometry.PerpNonZero` | collision/main.cpp:89 | the perpendicular of a non-zero edge is non-zero, flipped or not |
| `ArgMax.FirstMaxUpTo` | collision/main.cpp:27-37 | the running best of the scan over the first n values is one of those n positions |
| `ArgMax.FirstMaxUpToIsFirstMax` | collision/main.cpp:30-37 | the scan's answer is the first maximum: nothing is larger, and everything before it is strictly smaller |
| `ArgMax.FirstMaxUnique` | collision/main.cpp:33 | the first maximum is unique, so the strict comparison fixes the answer |
| `Minkowski.Furthest` | collision/main.cpp:22-40 | the answer is a vertex index, and it is the first maximum of the vertices' projections onto the direction |
| `Minkowski.FurthestIsFirstMax` | collision/main.cpp:27-37 | no vertex projects further than the answer, and every earlier vertex projects strictly less (index 0 when all tie) |
| `Minkowski.GetFurthestInDirection` | collision/main.cpp:22-40 | the scan returns `Furthest`: an index in range whose projection is maximal, with ties going to the first maximum |
| `Minkowski.SupportPoint` | collision/main.cpp:43-47 | no contract of its own; the definition is lines 43-47: A's vertex found in d minus B's vertex found in -d; its properties are the rows `SupportInDifference` to `SupportTieBreak` |
| `Minkowski.SupportInDifference` | collision/main.cpp:43-47 | the support point is a vertex difference a - b |
| `Minkowski.SupportMaximal` | collision/main.cpp:43-50 | no vertex difference projects further onto the direction than the support point |
| `Minkowski.SupportExtreme` | collision/main.cpp:43-50 | A's furthest vertex in d minus B's furthest vertex in -d projects onto d at least as far as every a - b |
| `Minkowski.SupportTieBreak` | collision/main.cpp:44-45 | the support point is A's first furthest vertex minus B's first furthest vertex in the opposite direction |
| `Minkowski.Support` | collision/main.cpp:43-50 | the method returns the support point: A's vertex found in d minus B's vertex found in -d, a vertex difference |
| `Gjk.PerpAwayFrom` | collision/main.cpp:158-162 | no contract of its own; the definition is lines 158-162 and 171-175: the perpendicular of the edge, negated when its projection onto the third point `c` (resp. `b`) is non-negative |
| `Gjk.PerpTowardOrigin` | collision/main.cpp:189-195 | the line case's direction is perpendicular to b - a and has a non-negative projection onto -a |
| `Gjk.EnclosesOrigin` | collision/main.cpp:154-178 | no contract of its own; the definition is the triangle test of lines 154-178: neither edge perpendicular, turned away from the third point, has a positive projection onto `-a`; `ContainsOrigin` and `OriginStep` report containment exactly when it holds |
| `Gjk.IndexOf` | collision/main.cpp:165 | `std::find`: the position of the first element equal to the value |
| `Gjk.RemoveAt` | collision/main.cpp:165 | `vector::erase`: the element at the position is gone and the others keep their order |
| `Gjk.EraseOlderPoint` | collision/main.cpp:165-181 | erasing by value in a triangle [b, c, a] always hits position 0 or 1; dropping c leaves [b, a] and dropping b leaves [c, a], even when b and c coincide |
| `Gjk.OriginStep` | collision/main.cpp:146-203 | one step reports containment exactly when the simplex passes the triangle test; a failing triangle becomes a line, and every other simplex keeps its size |
| `Gjk.ContainsOrigin` | collision/main.cpp:146-203 | computes `OriginStep`; reports containment exactly when the simplex is a triangle passing both edge tests, and then changes nothing; a failing triangle loses c (origin beyond ab) or else b, keeps the newest point last, and gets a direction perpendicular to the kept edge that points strictly at the origin; a line is kept and gets its perpendicular towards the origin; any other size changes nothing |
| `Gjk.SeparatingAxisSplitsProjections` | collision/main.cpp:217-219 | on an axis where every vertex difference projects negatively, every vertex of A lies strictly below every vertex of B |
| `Gjk.Run` | collision/main.cpp:213-231 | no contract of its own; the definition is the loop of lines 213-231 from pass i on: after pass 99 it ends with `CapReached` (line 231), otherwise it is `RunPass`; the boolean result of the source is the `Verdict` being `Overlap` |
| `Gjk.RunPass` | collision/main.cpp:215-229 | no contract of its own; the definition is one pass of lines 215-229: a support point with a negative projection ends with `Separated(direction)` (lines 218-219); otherwise the point is appended and `OriginStep` runs, ending with `Overlap` when it reports containment (lines 225-226) and going on to pass i + 1 otherwise |
| `Gjk.Pass` | collision/main.cpp:215-229 | one pass of the loop is `RunPass`: it ends the run with a separation exactly when the support point in the direction projects negatively, and then with that direction and the simplex unchanged; it ends with an overlap only when a line grows into a triangle that passes the test; otherwise the run goes on from the next pass with a two-point simplex; all points stay vertex differences |
| `Gjk.AreColliding` | collision/main.cpp:206-232 | the outcome is `Run` from pass 1 on [support point in (1, 1)] with direction (-1, -1): a pass whose support point does not reach past the origin ends with a separation, a passing triangle ends with an overlap, and after pass 99 the cap is reached; the first pass alone ends the run exactly when the support point in (-1, -1) projects negatively, and then with that separation and the one-point simplex; the simplex holds 1 to 3 vertex differences; an overlap is reported exactly on a triangle, which passes the test; a separation comes with an axis onto which every vertex difference projects negatively |
| `Epa.Next` | collision/main.cpp:76-78 | the wrap-around `j = i + 1, or 0 at the end` stays a position of the simplex (`j < n`) |
| `Epa.NextIsSuccessorModulo` | collision/main.cpp:76-78 | the wrap-around `j = i + 1, or 0 at the end` is `(i + 1) mod n` |
| `Epa.OutwardNormal` | collision/main.cpp:86-92 | no contract of its own; the definition is lines 86-92: the perpendicular of `b - a`, negated when its projection onto `-a` is non-negative; its properties are the rows `OutwardSide` and `OutwardNormalFacts` |
| `Epa.OutwardSide` | collision/main.cpp:89-92 | the edge's first point projects non-negatively onto the turned normal |
| `Epa.OutwardNormalFacts` | collision/main.cpp:86-92 | for distinct endpoints the turned normal is non-zero, `dot(a, n) >= 0`, and b projects onto it as a does |
| `Epa.EdgeAt` | collision/main.cpp:76-96 | no contract of its own; the definition is one pass of the edge loop, lines 76-96: the successor j, the outward normal scaled by the normalisation factor, the distance `dot(a, n)` and the index j; its properties are the row `EdgeGeometry` |
| `Epa.OnEdgeLine` | collision/main.cpp:96 | both endpoints of an edge project equally onto its normal |
| `Epa.EdgeGeometry` | collision/main.cpp:89-96 | on a non-degenerate simplex each edge's normal is non-zero, its distance is at least 0, and both endpoints lie at that distance along the normal |
| `Epa.ClosestEdge` | collision/main.cpp:99-103 | no contract of its own; the definition is the edge at `ClosestIndex`; the rows `ClosestIsFirstLeast` and `FindClosestEdge` state what it is |
| `Epa.ClosestIndex` | collision/main.cpp:99-103 | the chosen position is the first maximum of the negated edge distances |
| `Epa.ClosestIsFirstLeast` | collision/main.cpp:99-103 | the chosen edge has the least distance, and every earlier edge is strictly farther |
| `Epa.FindClosestEdge` | collision/main.cpp:69-107 | the scan returns `ClosestEdge`, the first edge of least distance; its index is the successor of its first point, in range; its normal is non-zero and its distance at least 0 |
| `Epa.InsertAt` | collision/main.cpp:128 | `vector::insert` grows the simplex by one point |
| `Epa.InsertAtPlaces` | collision/main.cpp:128 | after the insertion the point is at the position, the points before it are unchanged, and the points after it move up by one |
| `Epa.InsertKeepsOrder` | collision/main.cpp:128 | an insertion keeps every earlier point, in the same relative order |
| `Epa.InsertKeepsNonDegenerate` | collision/main.cpp:127-128 | inserting, between the endpoints of an edge, a point that differs from both leaves no edge joining equal points |
| `Epa.Converged` | collision/main.cpp:117-123 | no contract of its own; the definition is the test of lines 117-123: the support point in the closest edge's normal projects within 0.01 of that edge's distance |
| `Epa.Correction` | collision/main.cpp:124 | no contract of its own; the definition is line 124: the closest edge's normal scaled by the support distance plus 0.01; its property is the row `ConvergedCorrection` |
| `Epa.Expand` | collision/main.cpp:114-128 | a pass that misses the tolerance adds exactly one point to the simplex |
| `Epa.Grow` | collision/main.cpp:112-130 | k passes that miss the tolerance add exactly k points |
| `Epa.ExpandKeepsNonDegenerate` | collision/main.cpp:117-128 | a pass that misses the tolerance inserts a point that differs from both endpoints of the closest edge, so the simplex stays non-degenerate |
| `Epa.GrowStep` | collision/main.cpp:117-128 | such a pass also keeps the starting points in order and adds only a Minkowski-difference point |
| `Epa.ConvergedCorrection` | collision/main.cpp:123-124 | on convergence the normal is scaled by d + 0.01, which is positive, so the correction is non-zero |
| `Epa.Search` | collision/main.cpp:111-132 | no contract of its own; the definition is the loop of lines 111-132 from pass i on: after pass 99 it returns the zero vector (line 132), otherwise it is `SearchPass` |
| `Epa.SearchPass` | collision/main.cpp:113-129 | no contract of its own; the definition is one pass of lines 113-129: on `Converged` it returns `Correction` with the simplex unchanged (lines 123-124), otherwise it goes on to pass i + 1 with `Expand` (line 128) |
| `Epa.SearchIsGrow` | collision/main.cpp:110-133 | the search from any pass i makes n <= 100 - i passes that all miss the tolerance, and its simplex is the one those n insertions grow; it returns the zero vector exactly when n = 100 - i, and otherwise the correction of the converged grown simplex |
| `Epa.SearchStep` | collision/main.cpp:112-129 | a pass that misses the tolerance is one more growing pass at the front of what the rest of the search does |
| `Epa.SearchKeeps` | collision/main.cpp:112-130 | the simplex the search returns is non-degenerate, keeps the starting points in order and gains only vertex differences |
| `Epa.SearchBounds` | collision/main.cpp:112-132 | the search from pass i adds at most 100 - i points; it returns the zero vector exactly when it added all of them, and otherwise the correction of a converged simplex |
| `Epa.Pass` | collision/main.cpp:114-129 | one pass of the loop is `SearchPass`: it converges exactly when the support distance is within 0.01 of the edge's, and then returns the non-zero correction and ends the search; otherwise it returns the simplex with the support point inserted at the closest edge's index, still non-degenerate, and the search goes on from the next pass |
| `Epa.FindPenetrationDistance` | collision/main.cpp:110-133 | the result is `Search` from pass 1: every pass before the last missed the tolerance and inserted the support point in the closest edge's normal direction at that edge's index; at most 99 passes; the simplex stays non-degenerate, keeps its earlier points in order and gains only vertex differences; on convergence the result is the closest edge's normal times (d + 0.01), a positive factor; the zero vector is returned exactly when all 99 passes inserted |

## Left out

- `main` (collision/main.cpp:240-326) is window creation, event polling, keyboard input, drawing and
  frame pacing. It is I/O, so it is not modelled.
- The globals `B` and `vel` and the velocity update and clamping (collision/main.cpp:6-8, 269-312) are
  driver state, not collision logic.
- `getTransform().transformPoint` and rotation (collision/main.cpp:25-32, 44-45) are a library call using
  trigonometry. Shapes are taken as vertex sequences already in world space.
- The console output `std::cout << "HIT"` (collision/main.cpp:121) is I/O.
- Floating point is not modelled. Coordinates are exact reals, and `0.01f` is the real 0.01. The value of
  `sqrt` is abstracted to a positive factor.
- The `FLT_MAX` sentinel (collision/main.cpp:73) becomes "edge 0 is always accepted". This agrees with
  the source whenever edge 0's distance is below `FLT_MAX`, which in practice holds for every
  non-degenerate edge; a distance of `FLT_MAX` or more, or infinite, is a floating-point case the model
  does not have.
- Degenerate EPA input, where two neighbouring simplex points are equal, is left out. The source then
  normalises a zero vector, which yields a NaN distance, so that edge is never selected. The model
  requires a non-degenerate simplex instead, which also rules out fewer than two points; for those the
  source returns an uninitialised edge. Non-degeneracy is proved to be preserved by every insertion.
  `AreColliding` can itself report an overlap on such a triangle at a touching contact, so `main`
  (collision/main.cpp:316-318) can hand one to EPA. For A = [(1, 1), (-1, -1), (1, -1)] and
  B = [(0, 0)], pass 1 adds (-1, -1) and turns the direction to (-2, 2), pass 2 adds (1, 1) at
  projection 0, and the triangle [(1, 1), (-1, -1), (1, 1)] passes the test (traced by hand). The model
  leaves that case to the non-degeneracy precondition.
- `ContainsOrigin` on an empty simplex reads `simplex.back()`, which is undefined behaviour, so the model
  requires a non-empty simplex. The overlap test never passes an empty one.
- `AreColliding` builds its simplex from empty, as the source's comment requires of the caller, and
  returns it. It returns a `Verdict` (`Overlap`, `Separated(axis)` or `CapReached`); the source's boolean
  is `verdict == Overlap`.
- Counter widths (`size_t`, `int`) are unbounded naturals. The counters never exceed 100, so no
  wrap-around can occur.
- Gjk.AreColliding: does not state completeness (overlapping shapes give `Overlap` within the cap). The
  code does not promise it beyond the hard cap of 100.
- Gjk.ContainsOrigin: does not state that a passing triangle geometrically contains the origin, because
  the source does not ensure it, not even within a run of `AreColliding`. The two edge tests orient the
  perpendiculars by the sign of `dot(perp, c)`, using the position vector `c` rather than `c - a`, and
  the model keeps that. Once the search direction is zero, both tests pass on a triangle of three equal
  points. For A = [(5, -5)] and B = [(0, 0)], pass 1 adds (5, -5), which projects to 0 onto (-1, -1);
  the line [(5, -5), (5, -5)] has a zero edge, so the direction becomes (0, 0); pass 2 adds (5, -5)
  again, and the triangle of three copies of (5, -5) passes both tests (collision/main.cpp:164, 177),
  so the overlap is reported (line 226) although the origin is not in the shape difference (traced by
  hand).
- Epa.FindPenetrationDistance: does not state that the result has a particular magnitude, separates the
  shapes, or rotates with them, nor that the loop converges before the cap. These depend on convexity,
  which the code never checks, and on real numerics.
