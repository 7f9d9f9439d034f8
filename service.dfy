/**
 * `HooverService`: validates the request, then walks the instruction
 * string one symbol at a time, moving the request's own position object
 * in place and removing each patch it lands on from the request's own set.
 */
module HooverService {
  import opened Wrappers
  import opened CoordsDto
  import opened HooverRequestDto
  import opened RequestValidator

  /** Final position and number of patches cleaned. */
  datatype HooverResponse = HooverResponse(coords: Coords, patches: int)

  /** The unit move for a symbol, ignoring walls; any other symbol does not move. */
  function Advance(p: Coords, direction: char): Coords {
    match direction
    case 'N' => Coords(p.x, p.y + 1)
    case 'S' => Coords(p.x, p.y - 1)
    case 'E' => Coords(p.x + 1, p.y)
    case 'W' => Coords(p.x - 1, p.y)
    case _ => p
  }

  /** True when the hoover already sits on the wall in the given direction. */
  predicate HeadingToWall(p: Coords, direction: char, roomWidth: int, roomHeight: int) {
    match direction
    case 'N' => p.y >= roomHeight
    case 'S' => p.y <= 0
    case 'E' => p.x >= roomWidth
    case 'W' => p.x <= 0
    case _ => false
  }

  /**
   * An unknown symbol never meets a wall, and inside the room the wall test
   * is exactly "the unit move would leave the room".
   */
  lemma HeadingToWallIffLeaving(p: Coords, direction: char, roomWidth: int, roomHeight: int)
    ensures !IsInstruction(direction) ==> !HeadingToWall(p, direction, roomWidth, roomHeight)
    ensures InRoom(p, roomWidth, roomHeight) ==>
              (HeadingToWall(p, direction, roomWidth, roomHeight) <==>
                 IsInstruction(direction) && !InRoom(Advance(p, direction), roomWidth, roomHeight))
  {
  }

  /** The position after one symbol, as `moveHoover` leaves it. */
  function Step(p: Coords, direction: char, roomWidth: int, roomHeight: int): Coords {
    if HeadingToWall(p, direction, roomWidth, roomHeight) then p else Advance(p, direction)
  }

  /**
   * The step rule: a blocked or unknown symbol leaves the position where it
   * is, any other moves one cell; inside the room a move is taken exactly
   * when it stays in the room; each wall bound is kept; and a position that
   * fits a Java `int` still fits one afterwards, so the unbounded arithmetic
   * here agrees with the 32-bit arithmetic of the source.
   */
  lemma StepRule(p: Coords, direction: char, roomWidth: int, roomHeight: int)
    ensures var q := Step(p, direction, roomWidth, roomHeight);
            && (q == p <==> !IsInstruction(direction) || HeadingToWall(p, direction, roomWidth, roomHeight))
            && (q != p ==> q == Advance(p, direction))
            && (InRoom(p, roomWidth, roomHeight) ==>
                  q == if IsInstruction(direction) && InRoom(Advance(p, direction), roomWidth, roomHeight)
                       then Advance(p, direction) else p)
            && (p.x <= roomWidth ==> q.x <= roomWidth)
            && (p.y <= roomHeight ==> q.y <= roomHeight)
            && (p.x >= 0 ==> q.x >= 0)
            && (p.y >= 0 ==> q.y >= 0)
            && (FitsInt32(p) && IsInt32(roomWidth) && IsInt32(roomHeight) ==> FitsInt32(q))
  {
    HeadingToWallIffLeaving(p, direction, roomWidth, roomHeight);
  }

  /** The position after every symbol of `instructions`, in order. */
  function Run(start: Coords, instructions: string, roomWidth: int, roomHeight: int): Coords
    decreases |instructions|
  {
    if instructions == [] then start
    else
      var n := |instructions| - 1;
      Step(Run(start, instructions[..n], roomWidth, roomHeight), instructions[n], roomWidth, roomHeight)
  }

  /**
   * The wall clamp over a whole run: each bound the start satisfies, the
   * final position satisfies too, and so does fitting a Java `int`.
   */
  lemma {:induction false} RunKeepsBounds(start: Coords, instructions: string, roomWidth: int, roomHeight: int)
    ensures var p := Run(start, instructions, roomWidth, roomHeight);
            && (start.x <= roomWidth ==> p.x <= roomWidth)
            && (start.y <= roomHeight ==> p.y <= roomHeight)
            && (InRoom(start, roomWidth, roomHeight) ==> InRoom(p, roomWidth, roomHeight))
            && (FitsInt32(start) && IsInt32(roomWidth) && IsInt32(roomHeight) ==> FitsInt32(p))
    decreases |instructions|
  {
    if instructions != [] {
      var n := |instructions| - 1;
      RunKeepsBounds(start, instructions[..n], roomWidth, roomHeight);
      StepRule(Run(start, instructions[..n], roomWidth, roomHeight), instructions[n], roomWidth, roomHeight);
    }
  }

  /** Started inside the room, the hoover is inside the room after every prefix of the instructions. */
  lemma WallClampOnEveryPrefix(start: Coords, instructions: string, roomWidth: int, roomHeight: int)
    requires InRoom(start, roomWidth, roomHeight)
    ensures forall k :: 0 <= k <= |instructions| ==>
              InRoom(Run(start, instructions[..k], roomWidth, roomHeight), roomWidth, roomHeight)
  {
    forall k | 0 <= k <= |instructions|
      ensures InRoom(Run(start, instructions[..k], roomWidth, roomHeight), roomWidth, roomHeight)
    {
      RunKeepsBounds(start, instructions[..k], roomWidth, roomHeight);
    }
  }

  /** The cells occupied at some point: the start and the position after each prefix. */
  function Visited(start: Coords, instructions: string, roomWidth: int, roomHeight: int): (v: set<Coords>)
    ensures start in v && Run(start, instructions, roomWidth, roomHeight) in v
    ensures |v| <= |instructions| + 1
    decreases |instructions|
  {
    if instructions == [] then {start}
    else
      Visited(start, instructions[..|instructions| - 1], roomWidth, roomHeight)
      + {Run(start, instructions, roomWidth, roomHeight)}
  }

  /** A cell is visited exactly when it is the position after some prefix of the instructions. */
  lemma {:induction false} VisitedIsPrefixPositions(start: Coords, instructions: string, roomWidth: int, roomHeight: int, c: Coords)
    ensures c in Visited(start, instructions, roomWidth, roomHeight) <==>
              exists k :: 0 <= k <= |instructions| && Run(start, instructions[..k], roomWidth, roomHeight) == c
    decreases |instructions|
  {
    if instructions == [] {
      assert instructions[..0] == instructions;
    } else {
      var n := |instructions| - 1;
      var prefix := instructions[..n];
      VisitedIsPrefixPositions(start, prefix, roomWidth, roomHeight, c);
      assert instructions[..n + 1] == instructions;
      forall k | 0 <= k <= n
        ensures prefix[..k] == instructions[..k]
      {
      }
      if c in Visited(start, instructions, roomWidth, roomHeight) {
        if c in Visited(start, prefix, roomWidth, roomHeight) {
          var k :| 0 <= k <= n && Run(start, prefix[..k], roomWidth, roomHeight) == c;
          assert Run(start, instructions[..k], roomWidth, roomHeight) == c;
        } else {
          assert Run(start, instructions[..n + 1], roomWidth, roomHeight) == c;
        }
      } else {
        forall k | 0 <= k <= |instructions|
          ensures Run(start, instructions[..k], roomWidth, roomHeight) != c
        {
          if k <= n {
            assert Run(start, prefix[..k], roomWidth, roomHeight) != c;
          }
        }
      }
    }
  }

  /** Started inside the room, every visited cell is inside the room. */
  lemma VisitedInRoom(start: Coords, instructions: string, roomWidth: int, roomHeight: int)
    requires InRoom(start, roomWidth, roomHeight)
    ensures forall c :: c in Visited(start, instructions, roomWidth, roomHeight) ==> InRoom(c, roomWidth, roomHeight)
  {
    forall c | c in Visited(start, instructions, roomWidth, roomHeight)
      ensures InRoom(c, roomWidth, roomHeight)
    {
      VisitedIsPrefixPositions(start, instructions, roomWidth, roomHeight, c);
      var k :| 0 <= k <= |instructions| && Run(start, instructions[..k], roomWidth, roomHeight) == c;
      RunKeepsBounds(start, instructions[..k], roomWidth, roomHeight);
    }
  }

  /**
   * The positions the for-each loop passes through, built front to back:
   * the start, then the trace from the cell the first symbol leads to.
   */
  function Trace(start: Coords, instructions: string, roomWidth: int, roomHeight: int): seq<Coords>
    decreases |instructions|
  {
    [start] + if instructions == [] then []
              else Trace(Step(start, instructions[0], roomWidth, roomHeight), instructions[1..], roomWidth, roomHeight)
  }

  /** One entry per prefix of the instructions, the start first. */
  lemma {:induction false} TraceShape(start: Coords, instructions: string, roomWidth: int, roomHeight: int)
    ensures var t := Trace(start, instructions, roomWidth, roomHeight);
            |t| == |instructions| + 1 && t[0] == start
    decreases |instructions|
  {
    if instructions != [] {
      TraceShape(Step(start, instructions[0], roomWidth, roomHeight), instructions[1..], roomWidth, roomHeight);
    }
  }

  /** Running `d` then `rest` is running `rest` from the cell `d` leads to. */
  lemma {:induction false} RunCons(start: Coords, d: char, rest: string, roomWidth: int, roomHeight: int)
    ensures Run(start, [d] + rest, roomWidth, roomHeight)
              == Run(Step(start, d, roomWidth, roomHeight), rest, roomWidth, roomHeight)
    decreases |rest|
  {
    if rest != [] {
      var n := |rest| - 1;
      assert ([d] + rest)[..n + 1] == [d] + rest[..n];
      RunCons(start, d, rest[..n], roomWidth, roomHeight);
    }
  }

  /** The k-th entry of the trace is the position after the first k symbols. */
  lemma {:induction false} TraceMatchesRun(start: Coords, instructions: string, roomWidth: int, roomHeight: int)
    ensures var t := Trace(start, instructions, roomWidth, roomHeight);
            |t| == |instructions| + 1 &&
            forall k :: 0 <= k <= |instructions| ==> t[k] == Run(start, instructions[..k], roomWidth, roomHeight)
    decreases |instructions|
  {
    TraceShape(start, instructions, roomWidth, roomHeight);
    if instructions != [] {
      var d, rest := instructions[0], instructions[1..];
      var next := Step(start, d, roomWidth, roomHeight);
      TraceShape(next, rest, roomWidth, roomHeight);
      TraceMatchesRun(next, rest, roomWidth, roomHeight);
      forall k | 0 <= k <= |instructions|
        ensures Trace(start, instructions, roomWidth, roomHeight)[k] == Run(start, instructions[..k], roomWidth, roomHeight)
      {
        if k == 0 {
          assert instructions[..0] == [];
        } else {
          assert instructions[..k] == [d] + rest[..k - 1];
          RunCons(start, d, rest[..k - 1], roomWidth, roomHeight);
        }
      }
    } else {
      assert instructions[..0] == [];
    }
  }

  /** The visited cells are exactly the cells on the trace. */
  lemma TraceMatchesVisited(start: Coords, instructions: string, roomWidth: int, roomHeight: int)
    ensures Visited(start, instructions, roomWidth, roomHeight)
              == set c | c in Trace(start, instructions, roomWidth, roomHeight)
  {
    var t := Trace(start, instructions, roomWidth, roomHeight);
    TraceShape(start, instructions, roomWidth, roomHeight);
    TraceMatchesRun(start, instructions, roomWidth, roomHeight);
    forall c
      ensures c in Visited(start, instructions, roomWidth, roomHeight) <==> c in t
    {
      VisitedIsPrefixPositions(start, instructions, roomWidth, roomHeight, c);
      if c in t {
        var k :| 0 <= k < |t| && t[k] == c;
        assert Run(start, instructions[..k], roomWidth, roomHeight) == c;
      }
    }
  }

  /** The number of patches a run cleans: the distinct original patches it visits. */
  function CleanedCount(patches: set<Coords>, start: Coords, instructions: string, roomWidth: int, roomHeight: int): nat {
    |patches * Visited(start, instructions, roomWidth, roomHeight)|
  }

  /**
   * At most every patch, at most one per symbol plus the start, at least one
   * when the start is dirty, and none exactly when no patch is ever occupied.
   */
  lemma CleanedCountBounds(patches: set<Coords>, start: Coords, instructions: string, roomWidth: int, roomHeight: int)
    ensures var n := CleanedCount(patches, start, instructions, roomWidth, roomHeight);
            && n <= |patches| && n <= |instructions| + 1
            && (start in patches ==> n >= 1)
            && (n == 0 <==> patches !! Visited(start, instructions, roomWidth, roomHeight))
  {
    var v := Visited(start, instructions, roomWidth, roomHeight);
    SubsetCardinality(patches * v, patches);
    SubsetCardinality(patches * v, v);
    if start in patches {
      assert start in patches * v;
    }
    if !(patches !! v) {
      var c :| c in patches && c in v;
      assert c in patches * v;
    }
  }

  /**
   * What is counted is exactly what is removed: the counter plus the size of
   * the set left behind is the size of the original set.
   */
  lemma CleanedPlusRemaining(patches: set<Coords>, start: Coords, instructions: string, roomWidth: int, roomHeight: int)
    ensures CleanedCount(patches, start, instructions, roomWidth, roomHeight)
              + |patches - Visited(start, instructions, roomWidth, roomHeight)| == |patches|
  {
    var v := Visited(start, instructions, roomWidth, roomHeight);
    assert patches == (patches * v) + (patches - v);
    assert (patches * v) !! (patches - v);
  }

  lemma SubsetCardinality(a: set<Coords>, b: set<Coords>)
    requires a <= b
    ensures |a| <= |b|
  {
    assert b == a + (b - a);
  }

  /**
   * Landing on a cell already visited cleans nothing: the last symbol adds
   * nothing to the count when its cell was seen earlier in the run.
   */
  lemma RevisitCleansNothing(patches: set<Coords>, start: Coords, instructions: string, roomWidth: int, roomHeight: int)
    requires instructions != []
    requires Run(start, instructions, roomWidth, roomHeight)
               in Visited(start, instructions[..|instructions| - 1], roomWidth, roomHeight)
    ensures CleanedCount(patches, start, instructions, roomWidth, roomHeight)
              == CleanedCount(patches, start, instructions[..|instructions| - 1], roomWidth, roomHeight)
  {
    var prefix := instructions[..|instructions| - 1];
    assert Visited(start, instructions, roomWidth, roomHeight) == Visited(start, prefix, roomWidth, roomHeight);
  }

  /** The counter and the remaining set after landing on `c`, given those before. */
  lemma CleanStep(patches: set<Coords>, visited: set<Coords>, c: Coords)
    ensures c in patches - visited ==> |patches * (visited + {c})| == |patches * visited| + 1
    ensures c !in patches - visited ==> patches * (visited + {c}) == patches * visited
    ensures (patches - visited) - {c} == patches - (visited + {c})
  {
    if c in patches - visited {
      assert patches * (visited + {c}) == (patches * visited) + {c};
    }
  }

  /** One more symbol: one more step, and one more cell in the visited set. */
  lemma RunExtend(start: Coords, instructions: string, i: nat, roomWidth: int, roomHeight: int)
    requires i < |instructions|
    ensures Run(start, instructions[..i + 1], roomWidth, roomHeight)
              == Step(Run(start, instructions[..i], roomWidth, roomHeight), instructions[i], roomWidth, roomHeight)
    ensures Visited(start, instructions[..i + 1], roomWidth, roomHeight)
              == Visited(start, instructions[..i], roomWidth, roomHeight) + {Run(start, instructions[..i + 1], roomWidth, roomHeight)}
  {
    assert instructions[..i + 1][..i] == instructions[..i];
  }

  /** `moveHoover`: apply one symbol to the position object, through its setters. */
  method MoveHoover(position: MutableCoords, direction: char, roomWidth: int, roomHeight: int)
    modifies position
    ensures position.Value() == Step(old(position.Value()), direction, roomWidth, roomHeight)
  {
    if HeadingToWall(position.Value(), direction, roomWidth, roomHeight) {
      return;
    }
    match direction
    case 'N' => position.SetY(position.y + 1);
    case 'S' => position.SetY(position.y - 1);
    case 'E' => position.SetX(position.x + 1);
    case 'W' => position.SetX(position.x - 1);
    case _ =>
  }

  /**
   * The body of `navigate` after validation: clean the start cell, then
   * move symbol by symbol, cleaning each cell landed on that is still in
   * the set. Returns the counter.
   */
  method Simulate(position: MutableCoords, patches: CoordsSet, instructions: string, roomWidth: int, roomHeight: int)
    returns (cleanedPatches: nat)
    modifies position, patches
    ensures position.Value() == Run(old(position.Value()), instructions, roomWidth, roomHeight)
    ensures patches.elems == old(patches.elems) - Visited(old(position.Value()), instructions, roomWidth, roomHeight)
    ensures cleanedPatches == CleanedCount(old(patches.elems), old(position.Value()), instructions, roomWidth, roomHeight)
  {
    ghost var start := position.Value();
    ghost var original := patches.elems;
    cleanedPatches := 0;

    var here := position.Value();
    if here in patches.elems {
      cleanedPatches := cleanedPatches + 1;
      patches.Remove(here);
    }
    assert instructions[..0] == [];
    assert Visited(start, instructions[..0], roomWidth, roomHeight) == {start};
    assert original * {start} == if start in original then {start} else {};

    var i := 0;
    while i < |instructions|
      invariant 0 <= i <= |instructions|
      invariant position.Value() == Run(start, instructions[..i], roomWidth, roomHeight)
      invariant patches.elems == original - Visited(start, instructions[..i], roomWidth, roomHeight)
      invariant cleanedPatches == |original * Visited(start, instructions[..i], roomWidth, roomHeight)|
    {
      ghost var before := Visited(start, instructions[..i], roomWidth, roomHeight);
      MoveHoover(position, instructions[i], roomWidth, roomHeight);
      RunExtend(start, instructions, i, roomWidth, roomHeight);
      here := position.Value();
      CleanStep(original, before, here);
      if here in patches.elems {
        cleanedPatches := cleanedPatches + 1;
        patches.Remove(here);
      }
      i := i + 1;
    }
    assert instructions[..i] == instructions;
  }

  /**
   * `navigate`: validate, then simulate. A rejected request is returned as
   * the validator's error and nothing is moved or removed. An accepted one
   * leaves the request's position object at the final cell and its patch
   * set without the visited cells; the response carries a new value for
   * the final cell and the number of distinct patches visited, the start
   * included.
   */
  method Navigate(request: HooverRequest) returns (r: Result<HooverResponse, ValidationError>)
    modifies request.initialPosition, request.patches
    ensures var q := old(request.Snapshot());
            ValidateHooverRequest(q).Some? ==>
              && r == Failure(ValidateHooverRequest(q).value)
              && unchanged(request.initialPosition, request.patches)
    ensures var q := old(request.Snapshot());
            var visited := Visited(q.initialPosition, q.instructions, q.roomSize.x, q.roomSize.y);
            ValidateHooverRequest(q).None? ==>
              && r == Success(HooverResponse(
                          Run(q.initialPosition, q.instructions, q.roomSize.x, q.roomSize.y),
                          CleanedCount(q.patches, q.initialPosition, q.instructions, q.roomSize.x, q.roomSize.y)))
              && request.initialPosition.Value() == r.value.coords
              && request.patches.elems == q.patches - visited
    ensures request.roomSize != request.initialPosition ==> unchanged(request.roomSize)
  {
    var error := ValidateHooverRequest(request.Snapshot());
    if error.Some? {
      return Failure(error.value);
    }

    var roomWidth := request.roomSize.x;
    var roomHeight := request.roomSize.y;
    var hooverPosition := request.initialPosition;
    var cleanedPatches := Simulate(hooverPosition, request.patches, request.instructions, roomWidth, roomHeight);

    return Success(HooverResponse(hooverPosition.Value(), cleanedPatches));
  }
}
