/** Gift wrapping (Jarvis march) over integer points: the index of the leftmost
    point, the orientation test, one wrapping step and the clicks of the
    interactive driver that grow the hull one vertex at a time. */
module ConvexHull {
  import opened Points

  /* ---------------------------------------------------------------------- */
  /* getMinX                                                                */
  /* ---------------------------------------------------------------------- */

  /** `m` is the first index of S whose abscissa is minimal. */
  predicate IsFirstMinX(S: seq<Point>, m: nat) {
    && m < |S|
    && (forall j :: 0 <= j < |S| ==> S[m].x <= S[j].x)
    && (forall j :: 0 <= j < m ==> S[j].x > S[m].x)
  }

  /** Linear scan for the first point with minimal x; 0 when S has at most one
      point (and so also for the empty vector, where 0 is no valid index). */
  method GetMinX(S: seq<Point>) returns (min: nat)
    ensures |S| <= 1 ==> min == 0
    ensures |S| > 0 ==> IsFirstMinX(S, min)
  {
    min := 0;
    var i := 1;
    while i < |S|
      invariant 1 <= i
      invariant i <= |S| || i == 1
      invariant min < i
      invariant |S| > 0 ==> forall j :: 0 <= j < i ==> S[min].x <= S[j].x
      invariant |S| > 0 ==> forall j :: 0 <= j < min ==> S[j].x > S[min].x
    {
      if S[i].GetX() < S[min].GetX() {
        min := i;
      }
      i := i + 1;
    }
  }

  /** Two first-minimal indices are the same index. */
  lemma FirstMinXUnique(S: seq<Point>, m1: nat, m2: nat)
    requires IsFirstMinX(S, m1) && IsFirstMinX(S, m2)
    ensures m1 == m2
  {
    assert S[m1].x == S[m2].x;
  }

  /* ---------------------------------------------------------------------- */
  /* orientation                                                            */
  /* ---------------------------------------------------------------------- */

  /** Turn test of p2 against the directed line from p1 to p3: negative when p2
      is strictly on its left, zero when the three points are collinear,
      positive when p2 is strictly on its right (unbounded integers). It is
      zero as soon as two of the three points coincide. */
  function Orientation(p1: Point, p2: Point, p3: Point): (r: int)
    ensures p1 == p2 || p2 == p3 || p1 == p3 ==> r == 0
  {
    var x1 := p1.GetX() - p2.GetX();
    var x2 := p1.GetX() - p3.GetX();
    var y1 := p1.GetY() - p2.GetY();
    var y2 := p1.GetY() - p3.GetY();
    y2 * x1 - y1 * x2
  }

  /** The orientation is the cross product of p2 - p1 and p3 - p1, the
      signed area of the parallelogram they span. */
  lemma OrientationIsCross(p1: Point, p2: Point, p3: Point)
    ensures Orientation(p1, p2, p3) ==
      (p2.x - p1.x) * (p3.y - p1.y) - (p2.y - p1.y) * (p3.x - p1.x)
  {
  }

  /** Exchanging the last two points flips the sign; a cyclic rotation of the
      three points keeps it. */
  lemma OrientationSymmetries(p1: Point, p2: Point, p3: Point)
    ensures Orientation(p1, p3, p2) == -Orientation(p1, p2, p3)
    ensures Orientation(p2, p3, p1) == Orientation(p1, p2, p3)
  {
  }

  /* ---------------------------------------------------------------------- */
  /* giftWrapping                                                           */
  /* ---------------------------------------------------------------------- */

  /** The first candidate: S[0] unless it is the current point, else S[1]. */
  function Initial(p: Point, S: seq<Point>): Point
    requires |S| >= 2
  {
    if NotEqual(S[0], p) then S[0] else S[1]
  }

  /** What one element w of the scan does to the candidate: a point other than
      p that lies strictly left of the line from p through the candidate
      replaces it. */
  function Step(p: Point, w: Point, cand: Point): Point {
    if NotEqual(w, p) && Orientation(p, w, cand) < 0 then w else cand
  }

  /** The candidate after scanning the points of s in order, from `cand`. */
  function Scan(p: Point, s: seq<Point>, cand: Point): Point
    decreases |s|
  {
    if s == [] then cand else Step(p, s[|s| - 1], Scan(p, s[..|s| - 1], cand))
  }

  /** The vertex that follows p: the reference definition of one wrapping step. */
  function NextVertex(p: Point, S: seq<Point>): Point
    requires |S| >= 2
  {
    Scan(p, S, Initial(p, S))
  }

  /** `w` lies in the half-open half-plane of p facing direction d (a vector):
      strictly on the side of the line through p that d points to, or on that
      line and a quarter turn counterclockwise from d as seen from p. For
      d = (1, 0) these are the points strictly right of the vertical line
      through p and the points straight above p. */
  predicate InHalfPlane(p: Point, d: Point, w: Point) {
    var along := d.x * (w.x - p.x) + d.y * (w.y - p.y);
    var across := d.x * (w.y - p.y) - d.y * (w.x - p.x);
    along > 0 || (along == 0 && across > 0)
  }

  /** Every point of S other than p lies in the half-plane of p facing d: p is
      a vertex of the hull that a line through p touches at p alone. */
  predicate Supported(p: Point, d: Point, S: seq<Point>) {
    forall w :: w in S && w != p ==> InHalfPlane(p, d, w)
  }

  /** q differs from p and no point of S lies strictly left of the line from
      p through q: the segment from p to q is an edge of the hull (walked
      clockwise). */
  predicate EdgeOfHull(p: Point, q: Point, S: seq<Point>) {
    q != p && forall w :: w in S ==> Orientation(p, w, q) >= 0
  }

  /** A scan returns its starting candidate or one of the scanned points other
      than p. */
  lemma {:induction false} ScanSource(p: Point, s: seq<Point>, cand: Point)
    ensures Scan(p, s, cand) == cand || (Scan(p, s, cand) in s && Scan(p, s, cand) != p)
  {
    if s != [] {
      var prefix := s[..|s| - 1];
      ScanSource(p, prefix, cand);
      var r := Scan(p, prefix, cand);
      assert r in prefix ==> r in s;
    }
  }

  /** One wrapping step returns a point of S; it returns a point other than p
      whenever one of the first two points differs from p. */
  lemma NextVertexInS(p: Point, S: seq<Point>)
    requires |S| >= 2
    ensures NextVertex(p, S) in S
    ensures S[0] != p || S[1] != p ==> NextVertex(p, S) != p
  {
    ScanSource(p, S, Initial(p, S));
  }

  /** In a half-plane of p the "strictly left of" relation of rays from p is
      transitive enough for the greedy scan: if a is not strictly left of the
      ray p-b and e is strictly left of it, then a is not strictly left of the
      ray p-e. */
  lemma TurnTransitive(p: Point, d: Point, a: Point, b: Point, e: Point)
    requires InHalfPlane(p, d, a) && InHalfPlane(p, d, b) && InHalfPlane(p, d, e)
    requires Orientation(p, a, b) >= 0 && Orientation(p, e, b) < 0
    ensures Orientation(p, a, e) >= 0
  {
    OrientationIsCross(p, a, b);
    OrientationIsCross(p, e, b);
    OrientationIsCross(p, a, e);
    TurnTransitiveVectors(d.x, d.y, a.x - p.x, a.y - p.y, b.x - p.x, b.y - p.y,
                          e.x - p.x, e.y - p.y);
  }

  /** TurnTransitive on the vectors u = a - p, v = b - p and t = e - p and the
      direction d = (dx, dy). */
  lemma TurnTransitiveVectors(dx: int, dy: int, ux: int, uy: int, vx: int, vy: int, tx: int, ty: int)
    requires var f, g := dx * ux + dy * uy, dx * uy - dy * ux; f > 0 || (f == 0 && g > 0)
    requires var f, g := dx * vx + dy * vy, dx * vy - dy * vx; f > 0 || (f == 0 && g > 0)
    requires var f, g := dx * tx + dy * ty, dx * ty - dy * tx; f > 0 || (f == 0 && g > 0)
    requires ux * vy - uy * vx >= 0 && tx * vy - ty * vx < 0
    ensures ux * ty - uy * tx >= 0
  {
    IdentityAlong(dx, dy, ux, uy, vx, vy, tx, ty);
    IdentityAcross(dx, dy, ux, uy, vx, vy, tx, ty);
    SignArgument(dx * ux + dy * uy, dx * vx + dy * vy, dx * tx + dy * ty,
                 dx * uy - dy * ux, dx * vy - dy * vx, dx * ty - dy * tx,
                 ux * vy - uy * vx, tx * vy - ty * vx, ux * ty - uy * tx);
  }

  /** A two-dimensional Grassmann-Pluecker identity: the three cross products
      of u, v and t are linearly related, with the components of u, v and t
      along d as coefficients. */
  lemma IdentityAlong(dx: int, dy: int, ux: int, uy: int, vx: int, vy: int, tx: int, ty: int)
    ensures var ab, eb, ae := ux * vy - uy * vx, tx * vy - ty * vx, ux * ty - uy * tx;
      (dx * ux + dy * uy) * eb + (dx * vx + dy * vy) * ae == (dx * tx + dy * ty) * ab
  {
  }

  /** The same identity with the components across d as coefficients. */
  lemma IdentityAcross(dx: int, dy: int, ux: int, uy: int, vx: int, vy: int, tx: int, ty: int)
    ensures var ab, eb, ae := ux * vy - uy * vx, tx * vy - ty * vx, ux * ty - uy * tx;
      (dx * uy - dy * ux) * eb + (dx * vy - dy * vx) * ae == (dx * ty - dy * tx) * ab
  {
  }

  /** The sign argument of TurnTransitive on the components: three vectors in
      one half-open half-plane (f > 0, or f == 0 and g > 0), with the cross
      products ab >= 0 and eb < 0, force ae >= 0. */
  lemma SignArgument(fu: int, fv: int, ft: int, gu: int, gv: int, gt: int,
                     ab: int, eb: int, ae: int)
    requires fu > 0 || (fu == 0 && gu > 0)
    requires fv > 0 || (fv == 0 && gv > 0)
    requires ft > 0 || (ft == 0 && gt > 0)
    requires ab >= 0 && eb < 0
    requires fu * eb + fv * ae == ft * ab && gu * eb + gv * ae == gt * ab
    ensures ae >= 0
  {
    assert fu * eb <= 0 && ft * ab >= 0;
    assert fv * ae >= 0;
    if fv == 0 {
      // Then u lies on the boundary ray as well, and so, when ab > 0, does t.
      assert fu * eb == 0;
      assert fu == 0;
      assert ft * ab == 0;
      assert gu * eb < 0;
      assert gv * ae > gt * ab;
      assert gt * ab >= 0;
    }
  }

  /** When every point of s other than p lies in a half-plane of p, the scan
      keeps a candidate that no scanned point lies strictly left of. */
  lemma {:induction false} ScanExtreme(p: Point, d: Point, s: seq<Point>, cand: Point)
    requires forall w :: w in s && w != p ==> InHalfPlane(p, d, w)
    requires cand == p || InHalfPlane(p, d, cand)
    ensures forall w :: w in s ==> Orientation(p, w, Scan(p, s, cand)) >= 0
  {
    if s != [] {
      var prefix, last := s[..|s| - 1], s[|s| - 1];
      assert forall w :: w in prefix ==> w in s;
      ScanExtreme(p, d, prefix, cand);
      ScanSource(p, prefix, cand);
      var r := Scan(p, prefix, cand);
      assert r == p || InHalfPlane(p, d, r);
      forall w | w in s
        ensures Orientation(p, w, Scan(p, s, cand)) >= 0
      {
        if w != last && w != p {
          assert w in prefix;
          if NotEqual(last, p) && Orientation(p, last, r) < 0 {
            TurnTransitive(p, d, w, r, last);
          }
        }
      }
    }
  }

  /** One wrapping step from a vertex p that a line touches at p alone returns
      the next vertex: no point of S lies strictly left of the new edge. This
      needs S[0] or S[1] to differ from p; otherwise the step returns p itself
      (DuplicateStartClosesEarly, DuplicateVertexStalls). */
  lemma NextVertexExtreme(p: Point, d: Point, S: seq<Point>)
    requires |S| >= 2 && Supported(p, d, S)
    requires S[0] != p || S[1] != p
    ensures EdgeOfHull(p, NextVertex(p, S), S)
  {
    ScanExtreme(p, d, S, Initial(p, S));
    NextVertexInS(p, S);
  }

  /** One iteration of gift wrapping from the current hull point p. */
  method GiftWrapping(p: Point, S: seq<Point>) returns (next: Point)
    requires |S| >= 2
    ensures next == NextVertex(p, S)
    ensures next in S
    ensures S[0] != p || S[1] != p ==> next != p
    ensures forall d :: (S[0] != p || S[1] != p) && Supported(p, d, S) ==> EdgeOfHull(p, next, S)
  {
    if NotEqual(S[0], p) {
      next := S[0];
    } else {
      next := S[1];
    }
    for i := 0 to |S|
      invariant next == Scan(p, S[..i], Initial(p, S))
    {
      var w := S[i];
      assert S[..i + 1][..i] == S[..i];
      if NotEqual(w, p) {
        if Orientation(p, w, next) < 0 {
          next := w;
        }
      }
    }
    assert S[..|S|] == S;
    NextVertexInS(p, S);
    forall d | (S[0] != p || S[1] != p) && Supported(p, d, S)
      ensures EdgeOfHull(p, next, S)
    {
      NextVertexExtreme(p, d, S);
    }
  }

  /* ---------------------------------------------------------------------- */
  /* getConvexHull                                                          */
  /* ---------------------------------------------------------------------- */

  /** The point reached from p after k wrapping steps. */
  function Advance(p: Point, S: seq<Point>, k: nat): Point
    requires |S| >= 2
  {
    if k == 0 then p else NextVertex(Advance(p, S, k - 1), S)
  }

  /** Wrapping from a point of S never leaves S. */
  lemma {:induction false} AdvanceInS(p: Point, S: seq<Point>, k: nat)
    requires |S| >= 2 && p in S
    ensures Advance(p, S, k) in S
  {
    if k > 0 {
      AdvanceInS(p, S, k - 1);
      NextVertexInS(Advance(p, S, k - 1), S);
    }
  }

  /** The first wrapping step from the leftmost point, when that point is the
      lowest of the leftmost points and not both S[0] and S[1], gives a hull
      edge: that point is supported by the half-plane facing (1, 0). */
  lemma FirstStepExtreme(S: seq<Point>, m: nat)
    requires |S| >= 2 && IsFirstMinX(S, m)
    requires forall j :: 0 <= j < |S| && S[j].x == S[m].x ==> S[j].y >= S[m].y
    requires S[0] != S[m] || S[1] != S[m]
    ensures EdgeOfHull(S[m], Advance(S[m], S, 1), S)
  {
    forall w | w in S && w != S[m]
      ensures InHalfPlane(S[m], Point(1, 0), w)
    {
      var j :| 0 <= j < |S| && S[j] == w;
    }
    NextVertexExtreme(S[m], Point(1, 0), S);
  }

  /** The first k vertices of the wrap that starts at p, in order. */
  function Trace(p: Point, S: seq<Point>, k: nat): (t: seq<Point>)
    requires |S| >= 2
    ensures |t| == k
  {
    if k == 0 then [] else Trace(p, S, k - 1) + [Advance(p, S, k - 1)]
  }

  /** The j-th vertex of a trace is the j-th step of the wrap, so a trace
      started in S stays in S. */
  lemma {:induction false} TraceIsWrap(p: Point, S: seq<Point>, k: nat)
    requires |S| >= 2 && p in S
    ensures forall j :: 0 <= j < k ==> Trace(p, S, k)[j] == Advance(p, S, j)
    ensures forall q :: q in Trace(p, S, k) ==> q in S
  {
    if k > 0 {
      TraceIsWrap(p, S, k - 1);
      AdvanceInS(p, S, k - 1);
    }
  }

  /** What one mouse-button release does to the hull under construction:
      once there is more than one vertex and the current point is back at
      the start, nothing; otherwise the current point is appended and the
      current point moves on to the next vertex. */
  method Click(S: seq<Point>, p0: Point, L: seq<Point>, p: Point)
    returns (L': seq<Point>, p': Point)
    requires |S| >= 2
    ensures |L| > 1 && p == p0 ==> L' == L && p' == p
    ensures !(|L| > 1 && p == p0) ==> L' == L + [p] && p' == NextVertex(p, S)
  {
    if |L| > 1 && Equal(p, p0) {
      // The hull is closed: nothing to add.
      L', p' := L, p;
    } else {
      L' := L + [p];
      p' := GiftWrapping(p, S);
    }
  }

  /** The hull-building part of the interactive driver. `clicks` is the number
      of mouse-button releases before the window is closed. A vector of fewer
      than two points is returned as it is. Otherwise the wrap starts at the
      first leftmost point, each click acts as Click says, and `closed` tells
      whether the end was reached: the vertices are the successive wrapping
      steps from the start, none after the second is the start again, and the
      hull is closed exactly when the next step would return to the start. */
  method GetConvexHull(S: seq<Point>, clicks: nat) returns (L: seq<Point>, closed: bool)
    ensures |S| < 2 ==> L == S && closed
    ensures forall q :: q in L ==> q in S
    ensures |S| >= 2 ==> |L| <= clicks && (clicks > 0 ==> |L| > 0)
    ensures |S| >= 2 && |L| > 0 ==> exists m: nat :: IsFirstMinX(S, m) && L[0] == S[m]
    ensures |S| >= 2 ==> forall j :: 0 <= j < |L| ==> L[j] == Advance(L[0], S, j)
    ensures |S| >= 2 ==> forall j :: 2 <= j < |L| ==> L[j] != L[0]
    ensures |S| >= 2 ==> (closed <==> |L| > 1 && Advance(L[0], S, |L|) == L[0])
    ensures |S| >= 2 && |L| < clicks ==> closed
  {
    if |S| < 2 {
      return S, true;
    }
    var m := GetMinX(S);
    var p0 := S[m];
    var p := p0;
    L := [];
    var c := 0;
    while c < clicks
      invariant c <= clicks && |L| <= c
      invariant c > 0 ==> |L| > 0
      invariant L == Trace(p0, S, |L|) && p == Advance(p0, S, |L|)
      invariant forall j :: 2 <= j < |L| ==> L[j] != p0
      invariant |L| < c ==> |L| > 1 && p == p0
    {
      L, p := Click(S, p0, L, p);
      c := c + 1;
    }
    closed := |L| > 1 && Equal(p, p0);
    TraceIsWrap(p0, S, |L|);
    if |L| > 0 {
      assert L[0] == S[m];
    }
  }

  /* ---------------------------------------------------------------------- */
  /* Worked examples                                                        */
  /* ---------------------------------------------------------------------- */

  /** The scan of a prefix of s is one step on from the scan of the prefix one
      shorter. */
  lemma ScanPrefix(p: Point, s: seq<Point>, k: nat, cand: Point)
    requires 0 < k <= |s|
    ensures Scan(p, s[..k], cand) == Step(p, s[k - 1], Scan(p, s[..k - 1], cand))
  {
    assert s[..k][..k - 1] == s[..k - 1];
  }

  /** The scan of three points, unrolled. */
  lemma ScanThree(p: Point, s: seq<Point>, cand: Point)
    requires |s| == 3
    ensures Scan(p, s, cand) == Step(p, s[2], Step(p, s[1], Step(p, s[0], cand)))
  {
    ScanPrefix(p, s, 3, cand);
    ScanPrefix(p, s, 2, cand);
    ScanPrefix(p, s, 1, cand);
    assert s[..3] == s;
  }

  /** The scan of four points, unrolled. */
  lemma ScanFour(p: Point, s: seq<Point>, cand: Point)
    requires |s| == 4
    ensures Scan(p, s, cand) == Step(p, s[3], Step(p, s[2], Step(p, s[1], Step(p, s[0], cand))))
  {
    ScanPrefix(p, s, 4, cand);
    ScanPrefix(p, s, 3, cand);
    ScanPrefix(p, s, 2, cand);
    ScanPrefix(p, s, 1, cand);
    assert s[..4] == s;
  }

  /** The scan of five points, unrolled. */
  lemma ScanFive(p: Point, s: seq<Point>, cand: Point)
    requires |s| == 5
    ensures Scan(p, s, cand) ==
      Step(p, s[4], Step(p, s[3], Step(p, s[2], Step(p, s[1], Step(p, s[0], cand)))))
  {
    ScanFour(p, s[..4], cand);
    assert s[..4][..3] == s[..3];
  }

  /** Two distinct points wrap onto each other, so the hull of two points is
      both points. */
  lemma TwoPointHull(p: Point, q: Point)
    requires p != q
    ensures NextVertex(p, [p, q]) == q && NextVertex(q, [p, q]) == p
  {
    assert [p, q][..1] == [p] && [p][..0] == [];
    assert Scan(p, [p], q) == q && Scan(q, [p], p) == p;
  }

  /** The square with an interior point used by the examples below. */
  predicate IsSquare(S: seq<Point>) {
    S == [Point(0, 0), Point(4, 0), Point(4, 4), Point(0, 4), Point(2, 2)]
  }

  /** From the lower-left corner the wrap goes up the left side. */
  lemma SquareLeftSide(S: seq<Point>)
    requires IsSquare(S)
    ensures NextVertex(Point(0, 0), S) == Point(0, 4)
  {
    ScanFive(Point(0, 0), S, Initial(Point(0, 0), S));
  }

  /** From the upper-left corner the wrap goes along the top side. */
  lemma SquareTopSide(S: seq<Point>)
    requires IsSquare(S)
    ensures NextVertex(Point(0, 4), S) == Point(4, 4)
  {
    ScanFive(Point(0, 4), S, Initial(Point(0, 4), S));
  }

  /** From the upper-right corner the wrap goes down the right side. */
  lemma SquareRightSide(S: seq<Point>)
    requires IsSquare(S)
    ensures NextVertex(Point(4, 4), S) == Point(4, 0)
  {
    ScanFive(Point(4, 4), S, Initial(Point(4, 4), S));
  }

  /** From the lower-right corner the wrap comes back along the bottom side. */
  lemma SquareBottomSide(S: seq<Point>)
    requires IsSquare(S)
    ensures NextVertex(Point(4, 0), S) == Point(0, 0)
  {
    ScanFive(Point(4, 0), S, Initial(Point(4, 0), S));
  }

  /** A square with an interior point: the interior point is left out and the
      vertices come in clockwise order from the leftmost point. */
  lemma SquareHull(S: seq<Point>)
    requires IsSquare(S)
    ensures && IsFirstMinX(S, 0)
      && Advance(S[0], S, 1) == Point(0, 4)
      && Advance(S[0], S, 2) == Point(4, 4)
      && Advance(S[0], S, 3) == Point(4, 0)
      && Advance(S[0], S, 4) == Point(0, 0)
  {
    SquareLeftSide(S);
    SquareTopSide(S);
    SquareRightSide(S);
    SquareBottomSide(S);
  }

  /** The collinear example below: three leftmost points on a vertical line,
      the first of them the middle one, and one point to their right. */
  predicate IsCollinearLeft(S: seq<Point>) {
    S == [Point(0, 1), Point(0, 0), Point(0, 2), Point(1, 1)]
  }

  /** From the middle leftmost point the wrap skips (0,2). */
  lemma CollinearFirstStep(S: seq<Point>)
    requires IsCollinearLeft(S)
    ensures NextVertex(Point(0, 1), S) == Point(1, 1)
  {
    ScanFour(Point(0, 1), S, Initial(Point(0, 1), S));
  }

  /** From the right point the wrap goes to the lowest leftmost point. */
  lemma CollinearSecondStep(S: seq<Point>)
    requires IsCollinearLeft(S)
    ensures NextVertex(Point(1, 1), S) == Point(0, 0)
  {
    ScanFour(Point(1, 1), S, Initial(Point(1, 1), S));
  }

  /** From the lowest leftmost point the wrap returns to the start. */
  lemma CollinearThirdStep(S: seq<Point>)
    requires IsCollinearLeft(S)
    ensures NextVertex(Point(0, 0), S) == Point(0, 1)
  {
    ScanFour(Point(0, 0), S, Initial(Point(0, 0), S));
  }

  /** When the leftmost points are collinear and the first of them is not the
      lowest, the first step skips a hull vertex: from (0,1) it goes to (1,1)
      although (0,2) lies strictly left of that edge, and the hull closes as
      the triangle (0,1), (1,1), (0,0), which leaves (0,2) outside. */
  lemma CollinearLeftmostMissesPoint(S: seq<Point>)
    requires IsCollinearLeft(S)
    ensures && IsFirstMinX(S, 0)
      && Advance(S[0], S, 1) == Point(1, 1)
      && Orientation(Point(0, 1), Point(0, 2), Point(1, 1)) < 0
      && Advance(S[0], S, 2) == Point(0, 0)
      && Advance(S[0], S, 3) == Point(0, 1)
  {
    CollinearFirstStep(S);
    CollinearSecondStep(S);
    CollinearThirdStep(S);
  }

  /** Three points on one horizontal line, the leftmost of them last. */
  predicate IsCollinearRow(S: seq<Point>) {
    S == [Point(1, 0), Point(2, 0), Point(0, 0)]
  }

  /** From the leftmost point the wrap goes to the middle point. */
  lemma RowFromStart(S: seq<Point>)
    requires IsCollinearRow(S)
    ensures NextVertex(Point(0, 0), S) == Point(1, 0)
  {
    ScanThree(Point(0, 0), S, Initial(Point(0, 0), S));
  }

  /** From the middle point the wrap goes on to the right end. */
  lemma RowForward(S: seq<Point>)
    requires IsCollinearRow(S)
    ensures NextVertex(Point(1, 0), S) == Point(2, 0)
  {
    ScanThree(Point(1, 0), S, Initial(Point(1, 0), S));
  }

  /** From the right end the wrap comes back to the middle point, not to the
      leftmost one. */
  lemma RowBack(S: seq<Point>)
    requires IsCollinearRow(S)
    ensures NextVertex(Point(2, 0), S) == Point(1, 0)
  {
    ScanThree(Point(2, 0), S, Initial(Point(2, 0), S));
  }

  /** The wrap of the collinear row bounces between (1,0) and (2,0). */
  lemma {:induction false} RowBounces(S: seq<Point>, k: nat)
    requires IsCollinearRow(S) && k >= 1
    ensures Advance(S[2], S, k) == if k % 2 == 1 then Point(1, 0) else Point(2, 0)
  {
    assert Advance(S[2], S, k) == NextVertex(Advance(S[2], S, k - 1), S);
    if k == 1 {
      assert Advance(S[2], S, 0) == Point(0, 0);
      RowFromStart(S);
    } else {
      RowBounces(S, k - 1);
      if k % 2 == 1 {
        assert Advance(S[2], S, k - 1) == Point(2, 0);
        RowBack(S);
      } else {
        assert Advance(S[2], S, k - 1) == Point(1, 0);
        RowForward(S);
      }
    }
  }

  /** Collinear input without duplicate points can keep the hull from ever
      closing: on (1,0), (2,0), (0,0) the wrap starts at the leftmost point
      (0,0) and never returns to it, so by the contract of GetConvexHull the
      hull is not closed after any number of clicks. */
  lemma CollinearRowNeverCloses(S: seq<Point>)
    requires IsCollinearRow(S)
    ensures IsFirstMinX(S, 2)
    ensures forall k: nat :: k >= 1 ==> Advance(S[2], S, k) != S[2]
  {
    forall k: nat | k >= 1
      ensures Advance(S[2], S, k) != S[2]
    {
      RowBounces(S, k);
    }
  }

  /** Two copies of the leftmost point at the front, and one point to its
      right. */
  predicate IsDuplicateStart(S: seq<Point>) {
    S == [Point(0, 0), Point(0, 0), Point(1, 0)]
  }

  /** A duplicated start closes the hull early and drops the other point:
      (0,0) is the first leftmost point and a line touches it alone, but as
      S[0] and S[1] are both (0,0) the step returns (0,0) itself. So the wrap
      never leaves the start, and by the contract of GetConvexHull the hull
      closes as [(0,0), (0,0)] without (1,0). */
  lemma DuplicateStartClosesEarly(S: seq<Point>)
    requires IsDuplicateStart(S)
    ensures IsFirstMinX(S, 0) && Supported(S[0], Point(1, 0), S)
    ensures Advance(S[0], S, 1) == S[0] && Advance(S[0], S, 2) == S[0]
    ensures Trace(S[0], S, 2) == [S[0], S[0]] && S[2] !in Trace(S[0], S, 2)
  {
    DuplicateStartSupported(S);
    DuplicateStartWrap(S);
    TraceTwo(S[0], S);
  }

  /** Neither of the first two wrapping steps leaves the duplicated start. */
  lemma DuplicateStartWrap(S: seq<Point>)
    requires IsDuplicateStart(S)
    ensures Advance(S[0], S, 1) == S[0] && Advance(S[0], S, 2) == S[0]
  {
    DuplicateStartStays(S);
    assert Advance(S[0], S, 1) == NextVertex(Advance(S[0], S, 0), S);
    assert Advance(S[0], S, 2) == NextVertex(Advance(S[0], S, 1), S);
  }

  /** The first two vertices of a wrap: the start and its first step. */
  lemma TraceTwo(p: Point, S: seq<Point>)
    requires |S| >= 2
    ensures Trace(p, S, 2) == [p, Advance(p, S, 1)]
  {
    assert Trace(p, S, 1) == [] + [Advance(p, S, 0)];
  }

  /** A line touches the duplicated start alone: the other point lies in the
      half-plane facing (1, 0). */
  lemma DuplicateStartSupported(S: seq<Point>)
    requires IsDuplicateStart(S)
    ensures IsFirstMinX(S, 0) && Supported(S[0], Point(1, 0), S)
  {
    forall w | w in S && w != S[0]
      ensures InHalfPlane(S[0], Point(1, 0), w)
    {
      assert w == S[2];
    }
  }

  /** From the duplicated start, which is both S[0] and S[1], the step returns
      the start itself. */
  lemma DuplicateStartStays(S: seq<Point>)
    requires IsDuplicateStart(S)
    ensures NextVertex(Point(0, 0), S) == Point(0, 0)
  {
    ScanThree(Point(0, 0), S, Initial(Point(0, 0), S));
  }

  /** A duplicated hull vertex after the start, the start last, and one more
      point. */
  predicate IsDuplicateVertex(S: seq<Point>) {
    S == [Point(1, 1), Point(1, 1), Point(0, 0), Point(2, 0)]
  }

  /** From the leftmost point the wrap goes to the duplicated vertex. */
  lemma DuplicateFromStart(S: seq<Point>)
    requires IsDuplicateVertex(S)
    ensures NextVertex(Point(0, 0), S) == Point(1, 1)
  {
    ScanFour(Point(0, 0), S, Initial(Point(0, 0), S));
  }

  /** From the duplicated vertex, which is both S[0] and S[1], the step
      returns the vertex itself. */
  lemma DuplicateStays(S: seq<Point>)
    requires IsDuplicateVertex(S)
    ensures NextVertex(Point(1, 1), S) == Point(1, 1)
  {
    ScanFour(Point(1, 1), S, Initial(Point(1, 1), S));
  }

  /** A line touches the duplicated vertex alone: the other points lie in the
      half-plane facing (0, -1). */
  lemma DuplicateVertexSupported(S: seq<Point>)
    requires IsDuplicateVertex(S)
    ensures IsFirstMinX(S, 2) && Supported(S[0], Point(0, -1), S)
  {
    forall w | w in S && w != S[0]
      ensures InHalfPlane(S[0], Point(0, -1), w)
    {
      assert w == S[2] || w == S[3];
    }
  }

  /** Every step after the first stays at the duplicated vertex. */
  lemma {:induction false} DuplicateVertexStuck(S: seq<Point>, k: nat)
    requires IsDuplicateVertex(S) && k >= 1
    ensures Advance(S[2], S, k) == Point(1, 1)
  {
    assert Advance(S[2], S, k) == NextVertex(Advance(S[2], S, k - 1), S);
    if k == 1 {
      assert Advance(S[2], S, 0) == Point(0, 0);
      DuplicateFromStart(S);
    } else {
      DuplicateVertexStuck(S, k - 1);
      DuplicateStays(S);
    }
  }

  /** A duplicated vertex after the start stalls the wrap for ever: (0,0) is
      the first leftmost point, the wrap reaches (1,1), which a line touches
      alone (every other point lies in the half-plane facing (0,-1)), and then
      stays there, so by the contract of GetConvexHull the hull is not closed
      after any number of clicks. */
  lemma DuplicateVertexStalls(S: seq<Point>)
    requires IsDuplicateVertex(S)
    ensures IsFirstMinX(S, 2) && Supported(S[0], Point(0, -1), S)
    ensures forall k: nat :: k >= 1 ==> Advance(S[2], S, k) == S[0] != S[2]
  {
    DuplicateVertexSupported(S);
    forall k: nat | k >= 1
      ensures Advance(S[2], S, k) == S[0] != S[2]
    {
      DuplicateVertexStuck(S, k);
    }
  }
}
