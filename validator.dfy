/**
 * `HooverRequestValidator`: the ordered checks the service runs before
 * moving the hoover. The room size is checked first; only a room with
 * positive sides gets the bounds check on the start and every patch.
 */
module RequestValidator {
  import opened Wrappers
  import opened CoordsDto
  import opened HooverRequestDto

  /** The two exceptions the validator throws. */
  datatype ValidationError = InvalidRoomSize | OutOfRoomBounds

  predicate HasValidRoomSize(roomWidth: int, roomHeight: int) {
    roomWidth > 0 && roomHeight > 0
  }

  /** Only the upper bounds are tested: a coordinate is rejected when it exceeds a side. */
  predicate WithinUpperBounds(c: Coords, roomWidth: int, roomHeight: int) {
    !(c.x > roomWidth || c.y > roomHeight)
  }

  /** The start first, then every patch; any patch out of bounds fails the whole check. */
  predicate AreValidCoordinates(q: Request, roomWidth: int, roomHeight: int) {
    WithinUpperBounds(q.initialPosition, roomWidth, roomHeight)
    && forall p :: p in q.patches ==> WithinUpperBounds(p, roomWidth, roomHeight)
  }

  /** A coordinate of the request that lies beyond a side of the room. */
  predicate Offends(q: Request, c: Coords) {
    (c == q.initialPosition || c in q.patches) && (c.x > q.roomSize.x || c.y > q.roomSize.y)
  }

  /** None when the request is accepted; otherwise the error of the first failing check. */
  function ValidateHooverRequest(q: Request): (e: Option<ValidationError>)
    ensures e == None <==>
              && q.roomSize.x > 0 && q.roomSize.y > 0
              && q.initialPosition.x <= q.roomSize.x && q.initialPosition.y <= q.roomSize.y
              && forall p :: p in q.patches ==> p.x <= q.roomSize.x && p.y <= q.roomSize.y
    ensures e == Some(InvalidRoomSize) <==> q.roomSize.x <= 0 || q.roomSize.y <= 0
    ensures e == Some(OutOfRoomBounds) <==>
              q.roomSize.x > 0 && q.roomSize.y > 0 && exists c :: Offends(q, c)
  {
    var roomWidth := q.roomSize.x;
    var roomHeight := q.roomSize.y;
    if !HasValidRoomSize(roomWidth, roomHeight) then Some(InvalidRoomSize)
    else if !AreValidCoordinates(q, roomWidth, roomHeight) then
      assert !WithinUpperBounds(q.initialPosition, roomWidth, roomHeight) ==> Offends(q, q.initialPosition);
      assert forall p :: p in q.patches && !WithinUpperBounds(p, roomWidth, roomHeight) ==> Offends(q, p);
      Some(OutOfRoomBounds)
    else None
  }

  /**
   * The room-size error wins whatever the coordinates are, even when some
   * of them lie beyond the far wall.
   */
  lemma RoomSizeCheckedFirst(q: Request)
    requires q.roomSize.x <= 0 || q.roomSize.y <= 0
    ensures ValidateHooverRequest(q) == Some(InvalidRoomSize)
  {
  }

  /** A coordinate on the far wall or in the far corner is accepted: the bounds are inclusive. */
  lemma BoundsAreInclusive(width: int, height: int, instructions: string)
    requires width > 0 && height > 0
    ensures ValidateHooverRequest(
              Request(Coords(width, height), Coords(width, height),
                      {Coords(width, 0), Coords(0, height), Coords(width, height)}, instructions)) == None
  {
  }

  /** Negative coordinates pass this check; the bean constraints are what forbid them. */
  lemma NoLowerBoundCheck()
    ensures ValidateHooverRequest(Request(Coords(5, 5), Coords(-1, -1), {Coords(-3, 2)}, "N")) == None
  {
  }

  /**
   * A request that passes both the bean constraints and the validator puts
   * the start and every patch inside the inclusive room box.
   */
  lemma AcceptedRequestIsInRoom(r: RequestInput)
    requires WellFormed(r)
    ensures Bind(r).Some?
    ensures var q := Bind(r).value;
            ValidateHooverRequest(q) == None ==>
              && InRoom(q.initialPosition, q.roomSize.x, q.roomSize.y)
              && forall p :: p in q.patches ==> InRoom(p, q.roomSize.x, q.roomSize.y)
  {
    WellFormedIffConstraintsHold(r);
  }
}
