/**
 * The repository's own test cases, stated on the model: the four service
 * runs in a 5x5 room, the validator's rejections, and the bean constraints
 * the controller tests exercise. Each long run goes through its trace, so
 * the solver unfolds the simulation once and the set arithmetic is done in
 * a lemma of its own.
 */
module Scenarios {
  import opened Wrappers
  import opened CoordsDto
  import opened HooverRequestDto
  import opened RequestValidator
  import opened HooverService

  // ---- testHooverNavigationSuccessfully: start (1,2), "NNESEESWNWW" ----

  lemma SuccessfulTrace()
    ensures Trace(Coords(1, 2), "NNESEESWNWW", 5, 5)
              == [Coords(1, 2), Coords(1, 3), Coords(1, 4), Coords(2, 4), Coords(2, 3), Coords(3, 3),
                  Coords(4, 3), Coords(4, 2), Coords(3, 2), Coords(3, 3), Coords(2, 3), Coords(1, 3)]
  {
  }

  lemma SuccessfulCells(t: seq<Coords>)
    requires t == [Coords(1, 2), Coords(1, 3), Coords(1, 4), Coords(2, 4), Coords(2, 3), Coords(3, 3),
                   Coords(4, 3), Coords(4, 2), Coords(3, 2), Coords(3, 3), Coords(2, 3), Coords(1, 3)]
    ensures (set c | c in t) == {Coords(1, 2), Coords(1, 3), Coords(1, 4), Coords(2, 4), Coords(2, 3),
                                  Coords(3, 3), Coords(4, 3), Coords(4, 2), Coords(3, 2)}
  {
  }

  lemma SuccessfulHits(v: set<Coords>)
    requires v == {Coords(1, 2), Coords(1, 3), Coords(1, 4), Coords(2, 4), Coords(2, 3),
                   Coords(3, 3), Coords(4, 3), Coords(4, 2), Coords(3, 2)}
    ensures {Coords(1, 0), Coords(2, 2), Coords(2, 3)} * v == {Coords(2, 3)}
  {
  }

  lemma SuccessfulFinal()
    ensures Run(Coords(1, 2), "NNESEESWNWW", 5, 5) == Coords(1, 3)
  {
    var t := Trace(Coords(1, 2), "NNESEESWNWW", 5, 5);
    SuccessfulTrace();
    TraceMatchesRun(Coords(1, 2), "NNESEESWNWW", 5, 5);
    assert "NNESEESWNWW"[..11] == "NNESEESWNWW";
    assert t[11] == Coords(1, 3);
  }

  lemma SuccessfulVisited()
    ensures Visited(Coords(1, 2), "NNESEESWNWW", 5, 5)
              == {Coords(1, 2), Coords(1, 3), Coords(1, 4), Coords(2, 4), Coords(2, 3),
                  Coords(3, 3), Coords(4, 3), Coords(4, 2), Coords(3, 2)}
  {
    SuccessfulTrace();
    TraceMatchesVisited(Coords(1, 2), "NNESEESWNWW", 5, 5);
    SuccessfulCells(Trace(Coords(1, 2), "NNESEESWNWW", 5, 5));
  }

  lemma SuccessfulLeft(v: set<Coords>)
    requires v == {Coords(1, 2), Coords(1, 3), Coords(1, 4), Coords(2, 4), Coords(2, 3),
                   Coords(3, 3), Coords(4, 3), Coords(4, 2), Coords(3, 2)}
    ensures {Coords(1, 0), Coords(2, 2), Coords(2, 3)} - v == {Coords(1, 0), Coords(2, 2)}
  {
  }

  lemma SuccessfulAccepted(q: Request)
    requires q == Request(Coords(5, 5), Coords(1, 2), {Coords(1, 0), Coords(2, 2), Coords(2, 3)}, "NNESEESWNWW")
    ensures ValidateHooverRequest(q) == None
  {
  }

  /** The run ends at (1,3) and cleans only (2,3): (1,0) and (2,2) are never reached. */
  lemma NavigationSuccessfully()
    ensures ValidateHooverRequest(Request(Coords(5, 5), Coords(1, 2),
              {Coords(1, 0), Coords(2, 2), Coords(2, 3)}, "NNESEESWNWW")) == None
    ensures Run(Coords(1, 2), "NNESEESWNWW", 5, 5) == Coords(1, 3)
    ensures CleanedCount({Coords(1, 0), Coords(2, 2), Coords(2, 3)}, Coords(1, 2), "NNESEESWNWW", 5, 5) == 1
  {
    SuccessfulAccepted(Request(Coords(5, 5), Coords(1, 2), {Coords(1, 0), Coords(2, 2), Coords(2, 3)}, "NNESEESWNWW"));
    SuccessfulFinal();
    SuccessfulVisited();
    SuccessfulHits(Visited(Coords(1, 2), "NNESEESWNWW", 5, 5));
  }

  // ---- testHooverNavigationWithNoPatchesCleaned: start (0,0), "NNNN" ----

  lemma NoPatchesCleanedTrace()
    ensures Trace(Coords(0, 0), "NNNN", 5, 5)
              == [Coords(0, 0), Coords(0, 1), Coords(0, 2), Coords(0, 3), Coords(0, 4)]
  {
  }

  lemma NoPatchesCleanedFinal()
    ensures Run(Coords(0, 0), "NNNN", 5, 5) == Coords(0, 4)
  {
    var t := Trace(Coords(0, 0), "NNNN", 5, 5);
    NoPatchesCleanedTrace();
    TraceMatchesRun(Coords(0, 0), "NNNN", 5, 5);
    assert "NNNN"[..4] == "NNNN";
    assert t[4] == Coords(0, 4);
  }

  lemma NoPatchesCleanedVisited()
    ensures Visited(Coords(0, 0), "NNNN", 5, 5) == {Coords(0, 0), Coords(0, 1), Coords(0, 2), Coords(0, 3), Coords(0, 4)}
  {
    NoPatchesCleanedTrace();
    TraceMatchesVisited(Coords(0, 0), "NNNN", 5, 5);
  }

  /** Straight up the left wall to (0,4); the patch at (4,4) is never visited. */
  lemma NavigationWithNoPatchesCleaned()
    ensures ValidateHooverRequest(Request(Coords(5, 5), Coords(0, 0), {Coords(4, 4)}, "NNNN")) == None
    ensures Run(Coords(0, 0), "NNNN", 5, 5) == Coords(0, 4)
    ensures CleanedCount({Coords(4, 4)}, Coords(0, 0), "NNNN", 5, 5) == 0
  {
    NoPatchesCleanedFinal();
    NoPatchesCleanedVisited();
    CleanedCountBounds({Coords(4, 4)}, Coords(0, 0), "NNNN", 5, 5);
  }

  // ---- testHooverSkiddingAtWall: start (4,4), "EEEE" ----

  lemma SkiddingAtWallTrace()
    ensures Trace(Coords(4, 4), "EEEE", 5, 5)
              == [Coords(4, 4), Coords(5, 4), Coords(5, 4), Coords(5, 4), Coords(5, 4)]
  {
  }

  lemma SkiddingAtWallFinal()
    ensures Run(Coords(4, 4), "EEEE", 5, 5) == Coords(5, 4)
  {
    var t := Trace(Coords(4, 4), "EEEE", 5, 5);
    SkiddingAtWallTrace();
    TraceMatchesRun(Coords(4, 4), "EEEE", 5, 5);
    assert "EEEE"[..4] == "EEEE";
    assert t[4] == Coords(5, 4);
  }

  lemma SkiddingAtWallVisited()
    ensures Visited(Coords(4, 4), "EEEE", 5, 5) == {Coords(4, 4), Coords(5, 4)}
  {
    SkiddingAtWallTrace();
    TraceMatchesVisited(Coords(4, 4), "EEEE", 5, 5);
  }

  /** One step reaches the wall at x = 5; the other three skid. The start patch counts. */
  lemma SkiddingAtWall()
    ensures ValidateHooverRequest(Request(Coords(5, 5), Coords(4, 4), {Coords(4, 4)}, "EEEE")) == None
    ensures Run(Coords(4, 4), "EEEE", 5, 5) == Coords(5, 4)
    ensures CleanedCount({Coords(4, 4)}, Coords(4, 4), "EEEE", 5, 5) == 1
  {
    SkiddingAtWallFinal();
    SkiddingAtWallVisited();
    assert {Coords(4, 4)} * {Coords(4, 4), Coords(5, 4)} == {Coords(4, 4)};
  }

  // ---- testHooverRevisitsCleanedPatch: start (1,1), "SSEEWS" ----

  lemma RevisitsCleanedPatchTrace()
    ensures Trace(Coords(1, 1), "SSEEWS", 5, 5)
              == [Coords(1, 1), Coords(1, 0), Coords(1, 0), Coords(2, 0), Coords(3, 0), Coords(2, 0), Coords(2, 0)]
  {
  }

  lemma RevisitsCleanedPatchFinal()
    ensures Run(Coords(1, 1), "SSEEWS", 5, 5) == Coords(2, 0)
  {
    var t := Trace(Coords(1, 1), "SSEEWS", 5, 5);
    RevisitsCleanedPatchTrace();
    TraceMatchesRun(Coords(1, 1), "SSEEWS", 5, 5);
    assert "SSEEWS"[..6] == "SSEEWS";
    assert t[6] == Coords(2, 0);
  }

  lemma RevisitsCleanedPatchCells(t: seq<Coords>)
    requires t == [Coords(1, 1), Coords(1, 0), Coords(1, 0), Coords(2, 0), Coords(3, 0), Coords(2, 0), Coords(2, 0)]
    ensures (set c | c in t) == {Coords(1, 1), Coords(1, 0), Coords(2, 0), Coords(3, 0)}
  {
  }

  lemma RevisitsCleanedPatchVisited()
    ensures Visited(Coords(1, 1), "SSEEWS", 5, 5) == {Coords(1, 1), Coords(1, 0), Coords(2, 0), Coords(3, 0)}
  {
    RevisitsCleanedPatchTrace();
    TraceMatchesVisited(Coords(1, 1), "SSEEWS", 5, 5);
    RevisitsCleanedPatchCells(Trace(Coords(1, 1), "SSEEWS", 5, 5));
  }

  lemma RevisitsCleanedPatchHits(v: set<Coords>)
    requires v == {Coords(1, 1), Coords(1, 0), Coords(2, 0), Coords(3, 0)}
    ensures {Coords(1, 0), Coords(2, 2)} * v == {Coords(1, 0)}
  {
  }

  /** (1,0) is entered twice but counted once; (2,2) is never reached. */
  lemma RevisitsCleanedPatch()
    ensures ValidateHooverRequest(Request(Coords(5, 5), Coords(1, 1), {Coords(1, 0), Coords(2, 2)}, "SSEEWS")) == None
    ensures Run(Coords(1, 1), "SSEEWS", 5, 5) == Coords(2, 0)
    ensures CleanedCount({Coords(1, 0), Coords(2, 2)}, Coords(1, 1), "SSEEWS", 5, 5) == 1
  {
    RevisitsCleanedPatchFinal();
    RevisitsCleanedPatchVisited();
    RevisitsCleanedPatchHits(Visited(Coords(1, 1), "SSEEWS", 5, 5));
  }

  // ---- the validator's rejections ----

  /** A 0x0 room is rejected before any coordinate is looked at. */
  lemma InvalidRoomSizeRejected()
    ensures ValidateHooverRequest(Request(Coords(0, 0), Coords(1, 1), {Coords(1, 0)}, "N")) == Some(InvalidRoomSize)
  {
  }

  lemma InitialPositionOutOfBoundsRejected()
    ensures ValidateHooverRequest(Request(Coords(5, 5), Coords(6, 6), {Coords(1, 1)}, "N")) == Some(OutOfRoomBounds)
  {
    assert Offends(Request(Coords(5, 5), Coords(6, 6), {Coords(1, 1)}, "N"), Coords(6, 6));
  }

  lemma PatchOutOfBoundsRejected()
    ensures ValidateHooverRequest(Request(Coords(5, 5), Coords(2, 2), {Coords(6, 6)}, "N")) == Some(OutOfRoomBounds)
  {
    assert Offends(Request(Coords(5, 5), Coords(2, 2), {Coords(6, 6)}, "N"), Coords(6, 6));
  }

  /** A valid room does not save a start far outside it. */
  lemma FarInitialPositionRejected()
    ensures ValidateHooverRequest(Request(Coords(5, 5), Coords(10, 10), {Coords(1, 1)}, "N")) == Some(OutOfRoomBounds)
  {
    assert Offends(Request(Coords(5, 5), Coords(10, 10), {Coords(1, 1)}, "N"), Coords(10, 10));
  }

  // ---- the bean constraints ----

  function Present(x: int, y: int): CoordsInput {
    CoordsInput(Some(x), Some(y))
  }

  /** "NNEA" breaks only the instruction pattern. */
  lemma InvalidInstructionsReported()
    ensures Violations(RequestInput(Some(Present(5, 5)), Some(Present(1, 2)), Some({Present(1, 1)}), Some("NNEA")))
              == {PatternMismatch(Instructions)}
  {
    assert !IsInstruction("NNEA"[3]);
  }

  /** A room of (-5,-5) breaks both of its nested minimum constraints. */
  lemma NegativeRoomSizeReported()
    ensures Violations(RequestInput(Some(Present(-5, -5)), Some(Present(1, 2)), Some({Present(1, 1)}), Some("NNE")))
              == {Nested(RoomSize, NegativeCoordinate(X)), Nested(RoomSize, NegativeCoordinate(Y))}
  {
  }

  lemma NullRoomSizeReported()
    ensures Violations(RequestInput(None, Some(Present(1, 2)), Some({Present(1, 1)}), Some("NNE")))
              == {NotNull(RoomSize)}
  {
  }

  lemma EmptyPatchesReported()
    ensures Violations(RequestInput(Some(Present(5, 5)), Some(Present(1, 2)), Some({}), Some("NNE")))
              == {NotEmpty(Patches)}
  {
  }

  /** The successful run's outcome, stated on whatever request holds those values. */
  lemma SuccessfulOutcome(q: Request)
    requires q == Request(Coords(5, 5), Coords(1, 2), {Coords(1, 0), Coords(2, 2), Coords(2, 3)}, "NNESEESWNWW")
    ensures ValidateHooverRequest(q) == None
    ensures Run(q.initialPosition, q.instructions, q.roomSize.x, q.roomSize.y) == Coords(1, 3)
    ensures CleanedCount(q.patches, q.initialPosition, q.instructions, q.roomSize.x, q.roomSize.y) == 1
    ensures q.patches - Visited(q.initialPosition, q.instructions, q.roomSize.x, q.roomSize.y)
              == {Coords(1, 0), Coords(2, 2)}
  {
    SuccessfulAccepted(q);
    SuccessfulFinal();
    SuccessfulVisited();
    SuccessfulHits(Visited(Coords(1, 2), "NNESEESWNWW", 5, 5));
    SuccessfulLeft(Visited(Coords(1, 2), "NNESEESWNWW", 5, 5));
  }

  /**
   * The successful run driven through the request object: the response is
   * (1,3) with one patch, the caller's own start object now holds (1,3),
   * and the caller's own patch set has lost the cleaned cell.
   */
  method NavigateSuccessfully() returns (r: Result<HooverResponse, ValidationError>, finalCell: Coords, left: set<Coords>)
    ensures r == Success(HooverResponse(Coords(1, 3), 1))
    ensures finalCell == Coords(1, 3)
    ensures left == {Coords(1, 0), Coords(2, 2)}
  {
    var roomSize := new MutableCoords(5, 5);
    var position := new MutableCoords(1, 2);
    var patches := new CoordsSet({Coords(1, 0), Coords(2, 2), Coords(2, 3)});
    var request := new HooverRequest(roomSize, position, patches, "NNESEESWNWW");
    SuccessfulOutcome(request.Snapshot());
    r := Navigate(request);
    finalCell := position.Value();
    left := patches.elems;
  }
}
