/**
 * The `Coords` DTO: a pair of boxed integers with bean-validation
 * constraints (@NotNull, @Min(0)), Lombok value equality, and setters
 * that let the navigator move a position in place.
 */
module CoordsDto {
  import opened Wrappers

  /** A grid cell, compared by value as the Lombok-generated equals/hashCode do. */
  datatype Coords = Coords(x: int, y: int)

  datatype Axis = X | Y

  const INT_MIN: int := -0x8000_0000
  const INT_MAX: int := 0x7fff_ffff

  /** Values a Java `int` can hold. */
  predicate IsInt32(n: int) {
    INT_MIN <= n <= INT_MAX
  }

  predicate FitsInt32(c: Coords) {
    IsInt32(c.x) && IsInt32(c.y)
  }

  /** The room is the inclusive box [0, width] x [0, height]. */
  predicate InRoom(c: Coords, width: int, height: int) {
    0 <= c.x <= width && 0 <= c.y <= height
  }

  /** The @Min(value = 0) constraints on both components. */
  predicate NonNegative(c: Coords) {
    c.x >= 0 && c.y >= 0
  }

  /** A `Coords` bean as deserialised, before validation: each `Integer` may be null. */
  datatype CoordsInput = CoordsInput(x: Option<int>, y: Option<int>)

  function Component(c: CoordsInput, axis: Axis): Option<int> {
    match axis
    case X => c.x
    case Y => c.y
  }

  /** The non-null view of a bean whose two components are present. */
  function Unbox(c: CoordsInput): Option<Coords> {
    if c.x.Some? && c.y.Some? then Some(Coords(c.x.value, c.y.value)) else None
  }

  /** One violated constraint, reported under the component's property path. */
  datatype CoordsViolation = NullCoordinate(axis: Axis) | NegativeCoordinate(axis: Axis)

  /** @NotNull fires on a null component; @Min(0) treats null as valid and fires on a negative one. */
  function AxisViolations(v: Option<int>, axis: Axis): set<CoordsViolation> {
    match v
    case None => {NullCoordinate(axis)}
    case Some(n) => if n < 0 then {NegativeCoordinate(axis)} else {}
  }

  /**
   * Every constraint of the bean is evaluated; the violations of both
   * components are collected together rather than the first one only.
   */
  function CoordsViolations(c: CoordsInput): (vs: set<CoordsViolation>)
    ensures vs == {} <==> Unbox(c).Some? && NonNegative(Unbox(c).value)
    ensures forall axis: Axis :: NullCoordinate(axis) in vs <==> Component(c, axis).None?
    ensures forall axis: Axis ::
      NegativeCoordinate(axis) in vs <==> Component(c, axis).Some? && Component(c, axis).value < 0
  {
    AxisViolations(c.x, X) + AxisViolations(c.y, Y)
  }

  /** The `Coords` object itself: two mutable fields behind Lombok getters and setters. */
  class MutableCoords {
    var x: int
    var y: int

    constructor (x: int, y: int)
      ensures this.x == x && this.y == y
    {
      this.x := x;
      this.y := y;
    }

    /** The value the object currently holds; what equals/hashCode compare. */
    function Value(): Coords
      reads this
    {
      Coords(x, y)
    }

    method SetX(v: int)
      modifies this
      ensures x == v && y == old(y)
    {
      x := v;
    }

    method SetY(v: int)
      modifies this
      ensures y == v && x == old(x)
    {
      y := v;
    }
  }
}
