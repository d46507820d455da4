# Gift wrapping and heap-select sort, modelled in Dafny

This project models two small algorithmic cores of a C/C++ repository and
proves what they compute.

- **Convex hull by gift wrapping (Jarvis march)** over integer points.
  - `Points` (point.dfy) models the `Point` class: two private integer
    coordinates, two constructors, `const` getters, `==` and `!=`. A point
    has no mutator, so it is a Dafny datatype.
  - `ConvexHull` (convex_hull.dfy) models four pieces of the code:
    - `getMinX`: a loop that finds the first index with minimal x.
    - `orientation`: the integer turn test.
    - `giftWrapping`: one wrapping step, a loop that keeps the
      "most left" candidate.
    - The hull-building step of `getConvexHull`: what one mouse click does
      to the hull list `L` and the current point `p`.
  - The window and the event loop are stripped. The number of clicks
    before the window is closed is a parameter (`clicks`). It also acts as
    the bound on the number of wrapping steps.
- **In-place heap-select sort** `myheapsort` over an array.
  - Module `HeapSort` (heapsort.dfy) models it.
  - Within an active prefix, a slot larger than its parent is swapped with
    it and the scan restarts at slot 0.
  - A pass without a swap leaves the prefix maximum in slot 0. It is then
    swapped to the end of the prefix, and the prefix shrinks by one.
  - The model keeps the `array`, both nested loops and the restart at
    slot 0. The inner loop is the method `IsolateMax`; one outer round is
    `Round`.
  - Termination of the restarting inner loop is proved with a lexicographic
    measure: a potential that every swap lowers, then the scan position.

## Behaviour of the code

- **The hull is visited clockwise.** `orientation(p, w, c) < 0` means `w`
  lies strictly left of the directed line from `p` through `c`.
  `giftWrapping` replaces its candidate by such a `w`, so it keeps the
  leftmost ray. Starting from the leftmost point, the hull is therefore
  visited clockwise (with the y axis pointing up).
  `ConvexHull.SquareHull` shows it on a square: (0,0), (0,4), (4,4),
  (4,0).
- **The replacement test.** The candidate is replaced when
  `orientation(p, w, candidate) < 0` and `w` differs from `p`. A point
  collinear with `p` and the candidate never replaces it.
- **There is no iteration bound.** The driver stops adding points only once
  more than one point is in `L` and `p` is back at the start. Here the
  number of clicks bounds the run, and `closed` tells whether the end was
  reached. Nothing is claimed about termination.
  `ConvexHull.CollinearRowNeverCloses` shows collinear input, without
  duplicate points, on which the wrap never comes back to the start.
- **Duplicate points in S[0] and S[1].** The first candidate is S[0], or
  S[1] when S[0] is the current point, and S[1] is taken even when it is
  the current point too. When both are copies of the current point, no
  point can replace it, because the orientation against the current point
  itself is 0. The step then returns the current point.
  - A duplicated start closes the hull early and drops points:
    `ConvexHull.DuplicateStartClosesEarly` gives the hull (0,0), (0,0) for
    the points (0,0), (0,0), (1,0).
  - A duplicated later vertex stalls the wrap for ever:
    `ConvexHull.DuplicateVertexStalls` shows the wrap of (1,1), (1,1),
    (0,0), (2,0) stuck at (1,1).
- **getMinX returns an index.** Its doc comment says it returns the
  minimal x, but it returns the index of the first point with minimal x.

## Model

| member | source | states |
|---|---|---|
| Points.Point.GetX | convex_hull/Point.hpp:22 | the getter returns the stored abscissa: the point is rebuilt from it and its ordinate |
| Points.Point.GetY | convex_hull/Point.hpp:23 | the getter returns the stored ordinate: the point is rebuilt from its abscissa and it |
| Points.Origin | convex_hull/Point.cpp:10 | the default constructor yields the point whose getters both return 0 |
| Points.Make | convex_hull/Point.cpp:14 | the two-argument constructor stores exactly x and y, as the getters return them |
| Points.Equal | convex_hull/Point.cpp:26-28 | `==` holds exactly when the two points are the same value |
| Points.NotEqual | convex_hull/Point.cpp:30-32 | `!=` is exactly the negation of `==`, and of value equality |
| Points.EqualIsEquivalence | convex_hull/Point.cpp:26-28 | `==` is reflexive, symmetric and transitive |
| ConvexHull.GetMinX | convex_hull/convex_hull.cpp:95-103 | returns 0 for at most one point; otherwise a valid index whose x is at most every x, with every earlier index having a strictly larger x |
| ConvexHull.FirstMinXUnique | convex_hull/convex_hull.cpp:97-100 | the first index of minimal x is unique, so GetMinX's contract fixes its result |
| ConvexHull.Orientation | convex_hull/convex_hull.cpp:115-121 | the turn test is 0 as soon as two of the three points coincide |
| ConvexHull.OrientationIsCross | convex_hull/convex_hull.cpp:115-121 | the source's `y2*x1 - y1*x2` is the cross product of p2 - p1 and p3 - p1 |
| ConvexHull.OrientationSymmetries | convex_hull/convex_hull.cpp:115-121 | swapping the last two points negates the orientation; rotating all three keeps it |
| ConvexHull.TurnTransitive | convex_hull/convex_hull.cpp:115-121 | within any half-open half-plane of p, "not strictly left of" between rays from p is transitive as the scan needs it |
| ConvexHull.ScanSource | convex_hull/convex_hull.cpp:142-151 | the scan returns its initial candidate or one of the scanned points other than p |
| ConvexHull.ScanExtreme | convex_hull/convex_hull.cpp:142-151 | when every other point lies in one half-open half-plane of p, no scanned point lies strictly left of the line from p through the kept candidate |
| ConvexHull.NextVertexInS | convex_hull/convex_hull.cpp:135-152 | one wrapping step returns a point of S, and a point other than p whenever S[0] or S[1] differs from p |
| ConvexHull.NextVertexExtreme | convex_hull/convex_hull.cpp:130-153 | from a vertex p that a line touches at p alone (every other point in one half-open half-plane of p), and with S[0] or S[1] other than p, the step gives a hull edge: a point other than p with no point of S strictly left of the line from p through it |
| ConvexHull.GiftWrapping | convex_hull/convex_hull.cpp:130-153 | the loop computes the reference step NextVertex; its result is in S, differs from p when S[0] or S[1] does, and then gives a hull edge whenever p is a vertex supported by a half-open half-plane in any direction |
| ConvexHull.AdvanceInS | convex_hull/convex_hull.cpp:215-222 | any number of wrapping steps from a point of S stays in S |
| ConvexHull.TraceIsWrap | convex_hull/convex_hull.cpp:218-221 | the j-th point appended is the j-th wrapping step from the start, so every appended point is in S |
| ConvexHull.FirstStepExtreme | convex_hull/convex_hull.cpp:177-179 | from the first leftmost point, when it is also the lowest of the leftmost points and not both S[0] and S[1], the first step gives a hull edge: another point with no point strictly left of it (the half-plane facing (1, 0) supports the start) |
| ConvexHull.Click | convex_hull/convex_hull.cpp:215-222 | a click leaves L and p alone once L has more than one point and p is back at p0; otherwise it appends p and moves p to the next vertex |
| ConvexHull.GetConvexHull | convex_hull/convex_hull.cpp:162-222 | fewer than two points come back unchanged; otherwise L starts at the first leftmost point, is the sequence of successive wrapping steps, lies in S, never revisits the start after its second entry, and is closed exactly when the next step returns to the start; with clicks to spare it is closed |
| ConvexHull.TwoPointHull | convex_hull/convex_hull.cpp:130-153 | two distinct points wrap onto each other |
| ConvexHull.SquareHull | convex_hull/convex_hull.cpp:130-153 | on a square with an interior point, the wrap from the leftmost point visits the four corners clockwise and returns to the start, skipping the interior point |
| ConvexHull.CollinearLeftmostMissesPoint | convex_hull/convex_hull.cpp:135-151 | when the first leftmost point is not the lowest of several collinear leftmost points, the first step skips a point strictly left of the edge, and the hull closes without it |
| ConvexHull.RowBounces | convex_hull/convex_hull.cpp:135-151 | on the row (1,0), (2,0), (0,0) the wrap from (0,0) alternates between (1,0) and (2,0) for ever |
| ConvexHull.CollinearRowNeverCloses | convex_hull/convex_hull.cpp:215-222 | on that row the start is the leftmost point (0,0) and no number of steps returns to it, so the click loop never reaches its end |
| ConvexHull.DuplicateStartClosesEarly | convex_hull/convex_hull.cpp:135-151 | on (0,0), (0,0), (1,0) the start (0,0) is the first leftmost point and supported, yet the step from it returns (0,0) itself, so the first two vertices are (0,0) twice, the wrap is back at the start, and (1,0) is dropped |
| ConvexHull.DuplicateVertexStuck | convex_hull/convex_hull.cpp:135-151 | on (1,1), (1,1), (0,0), (2,0) every wrapping step from (0,0) lands on (1,1) |
| ConvexHull.DuplicateVertexStalls | convex_hull/convex_hull.cpp:215-222 | on that input (0,0) is the first leftmost point, the wrap reaches (1,1), which a line touches alone, and stays there for ever, never returning to the start, so the click loop never reaches its end |
| HeapSort.Parent | heapsort/heapsort.c:56 | the parent of slot 0 is slot 0, as C truncation gives; otherwise slot i is child 2r+1 or 2r+2 of its parent r |
| HeapSort.RootDominates | heapsort/heapsort.c:55-64 | when no slot of the prefix beats its parent, the value at any slot k of the prefix is at most the value at slot 0 |
| HeapSort.RootIsMax | heapsort/heapsort.c:55-64 | when no slot of the prefix beats its parent, slot 0 holds the prefix maximum |
| HeapSort.SwapLowersPotential | heapsort/heapsort.c:56-61 | swapping a value with a strictly larger value at a later slot strictly lowers the potential |
| HeapSort.SwapStep | heapsort/heapsort.c:56-61 | a swap of the inner loop lowers the prefix potential, keeps the prefix below the sorted suffix and leaves the suffix alone |
| HeapSort.Swap | heapsort/heapsort.c:57-59 | the array afterwards is the old array with the two slots exchanged; its multiset is kept |
| HeapSort.IsolateMax | heapsort/heapsort.c:53-64 | the inner loop ends with no slot of the prefix larger than its parent; it permutes the array, leaves everything from m on unchanged, keeps the prefix below the suffix and leaves the prefix maximum in slot 0 |
| HeapSort.RoundStep | heapsort/heapsort.c:66-68 | moving the prefix maximum from slot 0 to the end of the prefix grows the sorted suffix by one slot, still above the shorter prefix, and keeps the slots from n on |
| HeapSort.Round | heapsort/heapsort.c:53-69 | one outer round turns "suffix from m sorted and above the prefix" into the same from m - 1, permuting the array and keeping the slots from n on |
| HeapSort.MyHeapSort | heapsort/heapsort.c:48-71 | tab[0..n) ends sorted and is a permutation of its old contents; slots from n on are unchanged; for n <= 1 nothing changes |
| HeapSort.SortedPermutationUnique | heapsort/heapsort.c:48-71 | two sorted sequences holding the same multiset are equal, so sortedness and the preserved multiset fix the result |
| HeapSort.SortSortedIsIdentity | heapsort/heapsort.c:152-157 | an already sorted prefix comes back unchanged, with the whole array unchanged |
| HeapSort.SortTwo | heapsort/heapsort.c:98-104 | the two-element test input 8, -16 is sorted to -16, 8 |
| HeapSort.SortDuplicates | heapsort/heapsort.c:109-115 | the duplicates test's values 2.0, 5.5, 5.5, -3.0, 2.0, doubled so that they are integers (4, 11, 11, -6, 4), come back as -6, 4, 4, 11, 11 |

## Left out

- The SFML window, the drawing of axes, points and hull edges, and the
  event loop. The mouse clicks become the parameter `clicks`; closing the
  window is the end of the loop.
- The display scaling helpers, `operator<<`, `main`, the printing helpers,
  the random initialiser and all console output. These are display, I/O
  and test-driver code.
- The unused variables of `giftWrapping` (`min_angle`, `angle`) and of
  `getConvexHull` (`min`).
- Point: that the getters are `const` and that the coordinates cannot
  change after construction is not stated as a contract. It holds by
  construction, because a Dafny datatype value cannot be changed.
- Orientation: coordinates are unbounded integers. The 32-bit overflow of
  the C++ `int` arithmetic is not modelled.
- GiftWrapping: the step is proved to give a hull edge only from a vertex
  p that some line touches at p alone, that is when every other point lies
  in one half-open half-plane of p, and only when S[0] or S[1] differs from
  p. When both are copies of p the step returns p itself, which is no edge
  (`ConvexHull.DuplicateStartClosesEarly`). That the vertex it returns is again
  such a vertex is not proved, and with collinear points it is false:
  `ConvexHull.CollinearLeftmostMissesPoint` shows a tie where the code
  misses a hull point. So the whole hull is not claimed correct.
- GetConvexHull: termination is not claimed. It fails on collinear input
  (`ConvexHull.CollinearRowNeverCloses`) and on a duplicated vertex after
  the start (`ConvexHull.DuplicateVertexStalls`). The run is bounded by the
  number of clicks, and `closed` reports whether the start was reached.
  The containment of every point in the closed hull polygon is not proved,
  and it fails on a duplicated start, where the hull closes early without
  the other points (`ConvexHull.DuplicateStartClosesEarly`).
- MyHeapSort: the elements are integers rather than `float`. NaN, infinity
  and the `FLT_MAX`/`FLT_MIN` test are not modelled. The sort only
  compares with `>` and swaps, so any total order behaves alike.
- MyHeapSort: `n` is a natural number no larger than the array. A negative
  `n` in C makes the outer loop run zero times, and it is not modelled.
- The tests with only negative values, only positive values and bounds
  values are covered by the contract of `MyHeapSort`. They have no member
  of their own.
