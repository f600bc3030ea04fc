/** The four facings of the reindeer and the turns between them.
    Screen coordinates: x grows to the right (East), y grows downwards (South). */
module Directions {

  datatype Direction = East | North | South | West
  {
    /** Horizontal component of one forward step. */
    function OffsetX(): (dx: int)
      ensures -1 <= dx <= 1
      ensures dx != 0 <==> this == East || this == West
    {
      match this
      case East => 1
      case North => 0
      case South => 0
      case West => -1
    }

    /** Vertical component of one forward step (North is up, so negative). */
    function OffsetY(): (dy: int)
      ensures -1 <= dy <= 1
      ensures dy != 0 <==> this == North || this == South
    {
      match this
      case East => 0
      case North => -1
      case South => 1
      case West => 0
    }

    /** A quarter turn counter-clockwise: the step vector (dx, dy) becomes (dy, -dx). */
    function Left(): (r: Direction)
      ensures r != this
      ensures r.OffsetX() == OffsetY() && r.OffsetY() == -OffsetX()
    {
      match this
      case East => North
      case North => West
      case South => East
      case West => South
    }

    /** A quarter turn clockwise: the step vector (dx, dy) becomes (-dy, dx);
        it undoes Left. */
    function Right(): (r: Direction)
      ensures r != this && r != Left()
      ensures r.OffsetX() == -OffsetY() && r.OffsetY() == OffsetX()
      ensures r.Left() == this
    {
      match this
      case East => South
      case North => East
      case South => West
      case West => North
    }

    /** Slot of this facing in the third dimension of the distance table. */
    function Index(): (i: nat)
      ensures i < 4
    {
      match this
      case East => 0
      case North => 1
      case South => 2
      case West => 3
    }
  }

  /** Distinct facings occupy distinct slots of the distance table. */
  lemma IndexIsInjective(d: Direction, e: Direction)
    ensures d.Index() == e.Index() ==> d == e
  {
  }

  /** Turning left and turning right undo each other. */
  lemma TurnsAreInverse(d: Direction)
    ensures d.Left().Right() == d
    ensures d.Right().Left() == d
  {
  }

  /** Every facing steps exactly one cell along one axis. */
  lemma OffsetIsUnitStep(d: Direction)
    ensures (if d.OffsetX() < 0 then -d.OffsetX() else d.OffsetX())
          + (if d.OffsetY() < 0 then -d.OffsetY() else d.OffsetY()) == 1
  {
  }

  /** A single turn never reverses the facing: the opposite facing is two turns away. */
  lemma OneTurnIsNotReversal(d: Direction)
    ensures d.Left().OffsetX() != -d.OffsetX() || d.Left().OffsetY() != -d.OffsetY()
    ensures d.Left().Left().OffsetX() == -d.OffsetX() && d.Left().Left().OffsetY() == -d.OffsetY()
  {
  }
}
