/** A point of the plane with integer coordinates.
    The class it models keeps both coordinates private, offers no mutator and
    only `const` getters, so a point is a value: it cannot change after it
    has been constructed, which is exactly what a Dafny datatype is. */
module Points {

  datatype Point = Point(x: int, y: int) {

    /** The stored abscissa (an inline `const` getter). */
    function GetX(): (r: int)
      ensures this == Point(r, this.y)
    {
      x
    }

    /** The stored ordinate (an inline `const` getter). */
    function GetY(): (r: int)
      ensures this == Point(this.x, r)
    {
      y
    }
  }

  /** The default constructor: the origin. */
  function Origin(): (p: Point)
    ensures p.GetX() == 0 && p.GetY() == 0
  {
    Point(0, 0)
  }

  /** The two-argument constructor: it stores exactly the given coordinates. */
  function Make(x: int, y: int): (p: Point)
    ensures p.GetX() == x && p.GetY() == y
  {
    Point(x, y)
  }

  /** `operator ==`: component-wise comparison; it coincides with value equality. */
  function Equal(p1: Point, p2: Point): (b: bool)
    ensures b <==> p1 == p2
  {
    p1.GetX() == p2.GetX() && p1.GetY() == p2.GetY()
  }

  /** `operator !=`: written in the source as its own disjunction, it is the
      exact negation of `==`. */
  function NotEqual(p1: Point, p2: Point): (b: bool)
    ensures b <==> !Equal(p1, p2)
    ensures b <==> p1 != p2
  {
    p1.GetX() != p2.GetX() || p1.GetY() != p2.GetY()
  }

  /** `==` is reflexive and symmetric (and transitive, as value equality is). */
  lemma EqualIsEquivalence(p1: Point, p2: Point, p3: Point)
    ensures Equal(p1, p1)
    ensures Equal(p1, p2) == Equal(p2, p1)
    ensures Equal(p1, p2) && Equal(p2, p3) ==> Equal(p1, p3)
  {
  }
}
