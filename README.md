# Robotic hoover navigation, modelled in Dafny

The system is a small Spring service that receives a request and moves an
imaginary robotic hoover over a rectangular room. The request holds the room
size, the hoover's starting cell, a set of dirt patches and a string of
compass instructions. The service returns the final cell and the number of
patches the hoover cleaned. This project models the core in Dafny and proves
what it does.

- **The navigator (`HooverService`).** It walks the instructions one symbol
  at a time. A symbol is skipped when the hoover already sits on the wall in
  that direction; the room is the inclusive box `[0, width] x [0, height]`.
  The navigator moves the request's own position object through its setters.
  Each patch the hoover occupies, the start included, is counted once and
  removed from the request's own patch set.
- **The validator (`HooverRequestValidator`).** It runs first and checks in
  order. A room whose sides are not both positive is an invalid room size.
  Otherwise a start or patch beyond the far wall is out of bounds.
- **The bean constraints on `HooverRequest` and `Coords`.** They apply before
  the service is reached:
  - references and components must be non-null;
  - the patch set must be non-empty;
  - instructions must match `^[NESW]+$`;
  - every component must be at least 0.

Modules, one per source file plus a shared one:

| module | file | models |
|---|---|---|
| `Wrappers` | `wrappers.dfy` | `Option` and `Result` |
| `CoordsDto` | `coords.dfy` | `Coords` |
| `HooverRequestDto` | `request.dfy` | `HooverRequest`, and the `java.util.Set` of patches as a class |
| `RequestValidator` | `validator.dfy` | `HooverRequestValidator` |
| `HooverService` | `service.dfy` | `HooverService` |
| `Scenarios` | `scenarios.dfy` | the repository's unit and controller test cases, on the model |

How the model maps the Java:
- **Value and object sides.** `Coords` appears twice:
  - a value datatype, because Lombok's generated `equals`/`hashCode` compare by value, and set membership depends on it;
  - the class `MutableCoords`, because `moveHoover` changes a `Coords` object in place.
- **The request and its set are objects.** `HooverRequest` is a class whose fields reference a
  `MutableCoords` for the room size, another for the start, and a `CoordsSet`
  for the patches. The caller that built the request therefore sees both the
  moved start object and the shrunken patch set, as in the Java.
  `Scenarios.NavigateSuccessfully` shows this on the first service test.
- **The loop against a specification.** `Navigate` and its loop `Simulate`
  are proved against pure functions of the inputs:
  - `Run` is the position after the instructions;
  - `Visited` is the set of cells occupied;
  - `CleanedCount` is `|patches * Visited|`.
  The lemmas state what those functions mean. `Trace` is a second,
  independent definition of the walk, front to back like the Java for-each,
  and is proved to agree with `Run` and `Visited`.
- **Validation.** `Navigate` returns `Failure(InvalidRoomSize)` or
  `Failure(OutOfRoomBounds)` where the Java throws. The validator reads a value
  snapshot of the request, so it cannot change it.
- **Bean validation.** `Violations` computes the full set of constraint
  violations of a request as deserialised, with every reference optional.
  Bean validation reports all violations, not only the first.

## Model

| member | source | states |
|---|---|---|
| CoordsDto.CoordsViolations | src/main/java/com/rationaldata/robotic_hoover/dto/Coords.java:14-20 | A `Coords` bean is clean exactly when both components are present and non-negative. A null component raises its @NotNull violation exactly when it is null. A negative one raises its @Min violation, and null passes @Min. Violations of both components are reported together. |
| CoordsDto.MutableCoords.constructor | src/main/java/com/rationaldata/robotic_hoover/dto/Coords.java:9-11 | The all-args constructor stores both components. |
| CoordsDto.MutableCoords.SetX | src/main/java/com/rationaldata/robotic_hoover/dto/Coords.java:9-16 | The Lombok setter replaces x and keeps y. |
| CoordsDto.MutableCoords.SetY | src/main/java/com/rationaldata/robotic_hoover/dto/Coords.java:9-20 | The Lombok setter replaces y and keeps x. |
| HooverRequestDto.CoordsFieldClean | src/main/java/com/rationaldata/robotic_hoover/dto/HooverRequest.java:16-22 | A @NotNull @Valid `Coords` field has no violation exactly when it is non-null, both its components are non-null and both are at least 0. |
| HooverRequestDto.PatchesClean | src/main/java/com/rationaldata/robotic_hoover/dto/HooverRequest.java:24-26 | The patches field has no violation exactly when it is non-null, non-empty, and every element satisfies the `Coords` constraints. |
| HooverRequestDto.WellFormedIffConstraintsHold | src/main/java/com/rationaldata/robotic_hoover/dto/HooverRequest.java:16-30 | A request passes bean validation exactly when every reference and integer in it is present and its value has non-negative room size, start and patches, a non-empty patch set, and instructions in `^[NESW]+$`. Both directions are proved. |
| HooverRequestDto.Violations | src/main/java/com/rationaldata/robotic_hoover/dto/HooverRequest.java:16-30 | No contract of its own: the set of bean violations of a request as deserialised, the union of the four field checks. `HooverRequestDto.WellFormedIffConstraintsHold` and the `Scenarios.*Reported` lemmas state what it means. |
| HooverRequestDto.WellFormed | src/main/java/com/rationaldata/robotic_hoover/dto/HooverRequest.java:16-30 | No contract of its own: a request with no violations. `HooverRequestDto.WellFormedIffConstraintsHold` characterises it in both directions. |
| HooverRequestDto.CoordsSet.Remove | src/main/java/com/rationaldata/robotic_hoover/service/HooverService.java:55 | Removing a value from the patch set takes out that value only, whichever object was used to find it. |
| HooverRequestDto.HooverRequest.constructor | src/main/java/com/rationaldata/robotic_hoover/dto/HooverRequest.java:12-31 | The request references exactly the room-size object, the start object, the patch set and the instruction string it is given. |
| RequestValidator.HasValidRoomSize | src/main/java/com/rationaldata/robotic_hoover/validation/HooverRequestValidator.java:30-32 | No contract of its own: both sides positive. The second ensures of `RequestValidator.ValidateHooverRequest` states its effect. |
| RequestValidator.AreValidCoordinates | src/main/java/com/rationaldata/robotic_hoover/validation/HooverRequestValidator.java:42-57 | No contract of its own: the start and every patch within the upper bounds. The first and third ensures of `RequestValidator.ValidateHooverRequest` and `RequestValidator.AcceptedRequestIsInRoom` state its effect. |
| RequestValidator.ValidateHooverRequest | src/main/java/com/rationaldata/robotic_hoover/validation/HooverRequestValidator.java:16-57 | Accepts exactly when both sides are positive and the start and every patch are at most the width in x and at most the height in y. Reports an invalid room size exactly when a side is 0 or less, whatever the coordinates. Reports out of bounds exactly when the room is valid and some start or patch lies beyond a side. |
| RequestValidator.RoomSizeCheckedFirst | src/main/java/com/rationaldata/robotic_hoover/validation/HooverRequestValidator.java:16-27 | A room with a side of 0 or less is reported for its room size, whatever the coordinates are, including when some of them are out of bounds. |
| RequestValidator.BoundsAreInclusive | src/main/java/com/rationaldata/robotic_hoover/validation/HooverRequestValidator.java:46-54 | A start in the far corner and patches on the far walls are accepted, because the test is `>`. |
| RequestValidator.NoLowerBoundCheck | src/main/java/com/rationaldata/robotic_hoover/validation/HooverRequestValidator.java:42-57 | Negative coordinates get through the validator; only the bean constraints stop them. |
| RequestValidator.AcceptedRequestIsInRoom | src/main/java/com/rationaldata/robotic_hoover/validation/HooverRequestValidator.java:16-57 | A request that passes the bean constraints has a non-null view. If the validator also accepts it, its start and every patch lie inside the inclusive room box. |
| HooverService.HeadingToWall | src/main/java/com/rationaldata/robotic_hoover/service/HooverService.java:115-127 | No contract of its own: the wall test for each direction, false for any other symbol. `HooverService.HeadingToWallIffLeaving` states what it means. |
| HooverService.Step | src/main/java/com/rationaldata/robotic_hoover/service/HooverService.java:85-104 | No contract of its own: the value-level `moveHoover`. `HooverService.StepRule` states the step rule, and `HooverService.MoveHoover` is proved to agree with it. |
| HooverService.Run | src/main/java/com/rationaldata/robotic_hoover/service/HooverService.java:58-65 | No contract of its own: the position after the for-each loop. `HooverService.RunKeepsBounds`, `HooverService.TraceMatchesRun` and `HooverService.Simulate` state what it means. |
| HooverService.HeadingToWallIffLeaving | src/main/java/com/rationaldata/robotic_hoover/service/HooverService.java:115-127 | A symbol other than N, E, S, W is never blocked. From inside the room, a symbol is blocked exactly when the unit move would leave the room. |
| HooverService.StepRule | src/main/java/com/rationaldata/robotic_hoover/service/HooverService.java:85-104 | One symbol leaves the position unchanged exactly when it is blocked or unknown; otherwise it moves one cell in its direction. Inside the room it moves exactly when the move stays inside. Each wall bound already held is kept. A position that fits a Java `int` still fits one. |
| HooverService.RunKeepsBounds | src/main/java/com/rationaldata/robotic_hoover/service/HooverService.java:58-65 | Over a whole instruction string, the final position keeps each upper bound the start had, lies in the room if the start did, and fits a Java `int` if the start and the room do. |
| HooverService.WallClampOnEveryPrefix | src/main/java/com/rationaldata/robotic_hoover/service/HooverService.java:58-65 | From a start inside the room, the position after every prefix of the instructions is inside the room. |
| HooverService.Visited | src/main/java/com/rationaldata/robotic_hoover/service/HooverService.java:53-64 | The visited set contains the start and the final position, and has at most one cell per symbol plus the start. |
| HooverService.VisitedIsPrefixPositions | src/main/java/com/rationaldata/robotic_hoover/service/HooverService.java:53-64 | A cell is visited exactly when it is the position after some prefix of the instructions, the empty prefix included. |
| HooverService.VisitedInRoom | src/main/java/com/rationaldata/robotic_hoover/service/HooverService.java:58-65 | From a start inside the room, only cells inside the room are visited. |
| HooverService.TraceShape | src/main/java/com/rationaldata/robotic_hoover/service/HooverService.java:58 | The front-to-back trace has one entry per prefix, and its first entry is the start. |
| HooverService.RunCons | src/main/java/com/rationaldata/robotic_hoover/service/HooverService.java:58-59 | Running a symbol and then the rest is running the rest from where that symbol leads. |
| HooverService.TraceMatchesRun | src/main/java/com/rationaldata/robotic_hoover/service/HooverService.java:58-59 | Entry k of the front-to-back trace is the position after the first k symbols. |
| HooverService.TraceMatchesVisited | src/main/java/com/rationaldata/robotic_hoover/service/HooverService.java:53-64 | The visited set is exactly the set of cells on the trace. |
| HooverService.CleanedCountBounds | src/main/java/com/rationaldata/robotic_hoover/service/HooverService.java:51-64 | The count is at most the number of patches and at most one per symbol plus the start. It is at least 1 when the start is dirty. It is 0 exactly when no patch is ever occupied. |
| HooverService.CleanedPlusRemaining | src/main/java/com/rationaldata/robotic_hoover/service/HooverService.java:53-64 | The patches counted are exactly the patches removed: the count plus the size of the remaining set is the original size. |
| HooverService.RevisitCleansNothing | src/main/java/com/rationaldata/robotic_hoover/service/HooverService.java:61-64 | Landing on a cell visited earlier adds nothing to the count, so no patch is counted twice. |
| HooverService.MoveHoover | src/main/java/com/rationaldata/robotic_hoover/service/HooverService.java:85-104 | `moveHoover` changes the position object to the step rule's result for one symbol. |
| HooverService.Simulate | src/main/java/com/rationaldata/robotic_hoover/service/HooverService.java:47-65 | After cleaning the start and running the loop, three facts hold. The position object holds the run's final cell. The patch set holds the original patches minus the visited cells. The counter is the number of distinct original patches visited. |
| HooverService.Navigate | src/main/java/com/rationaldata/robotic_hoover/service/HooverService.java:40-68 | A rejected request returns the validator's error, and the position and patch set are untouched. An accepted one returns the final cell and the cleaned count. It leaves the request's start object on the final cell and its patch set without the visited cells. The room-size object is untouched unless it is the start object itself. |
| Scenarios.NavigationSuccessfully | src/test/java/com/rationaldata/robotic_hoover/service/HooverServiceTest.java:24-44 | Start (1,2), patches {(1,0),(2,2),(2,3)}, "NNESEESWNWW" in a 5x5 room: accepted, ends at (1,3), cleans 1. |
| Scenarios.NavigationWithNoPatchesCleaned | src/test/java/com/rationaldata/robotic_hoover/service/HooverServiceTest.java:47-65 | Start (0,0), patch (4,4), "NNNN": accepted, ends at (0,4), cleans 0. |
| Scenarios.SkiddingAtWall | src/test/java/com/rationaldata/robotic_hoover/service/HooverServiceTest.java:68-86 | Start (4,4) on a patch, "EEEE": accepted, ends at (5,4) after skidding, cleans 1. |
| Scenarios.RevisitsCleanedPatch | src/test/java/com/rationaldata/robotic_hoover/service/HooverServiceTest.java:89-108 | Start (1,1), patches {(1,0),(2,2)}, "SSEEWS": accepted, ends at (2,0), cleans 1 although (1,0) is entered twice. |
| Scenarios.NavigateSuccessfully | src/test/java/com/rationaldata/robotic_hoover/service/HooverServiceTest.java:24-44 | The first service test run through `Navigate` on request objects: the response is (1,3) with one patch cleaned, the caller's own start object is left on (1,3), and the caller's own patch set is left as {(1,0),(2,2)}. |
| Scenarios.InvalidRoomSizeRejected | src/test/java/com/rationaldata/robotic_hoover/validation/HooverRequestValidatorTest.java:20-34 | A 0x0 room with start (1,1) is rejected for its room size. |
| Scenarios.InitialPositionOutOfBoundsRejected | src/test/java/com/rationaldata/robotic_hoover/validation/HooverRequestValidatorTest.java:37-49 | Start (6,6) in a 5x5 room is out of bounds. |
| Scenarios.PatchOutOfBoundsRejected | src/test/java/com/rationaldata/robotic_hoover/validation/HooverRequestValidatorTest.java:52-64 | Patch (6,6) in a 5x5 room is out of bounds. |
| Scenarios.FarInitialPositionRejected | src/test/java/com/rationaldata/robotic_hoover/validation/HooverRequestValidatorTest.java:67-79 | Start (10,10) in a 5x5 room is out of bounds. |
| Scenarios.InvalidInstructionsReported | src/test/java/com/rationaldata/robotic_hoover/controller/HooverControllerTest.java:71-89 | "NNEA" raises exactly the instruction-pattern violation. |
| Scenarios.NegativeRoomSizeReported | src/test/java/com/rationaldata/robotic_hoover/controller/HooverControllerTest.java:92-110 | A room of (-5,-5) raises exactly the x and the y minimum violations under the room size. |
| Scenarios.NullRoomSizeReported | src/test/java/com/rationaldata/robotic_hoover/controller/HooverControllerTest.java:113-131 | A null room size raises exactly its @NotNull violation. |
| Scenarios.EmptyPatchesReported | src/test/java/com/rationaldata/robotic_hoover/controller/HooverControllerTest.java:134-151 | An empty patch set raises exactly the @NotEmpty violation. |

## Left out

- `HooverController`, Spring's request binding, and the HTTP layer are not part of this model. `Violations` stands for what `@Valid` computes before the controller calls the service.
- `GlobalExceptionHandler` and `ErrorResponse` are not modelled. They turn exceptions into JSON with message strings, map ordering and timestamps. Errors are the datatype `ValidationError`, and bean violations are the datatype `Violation`, without their message texts.
- The exception class hierarchy is not modelled. Each exception the validator throws is one constructor of `ValidationError`.
- `NegativeValuesException` is not modelled: nothing in the modelled code throws it.
- Swagger configuration and the example JSON are not modelled; they are documentation only.
- `HooverResponse` is a plain two-field datatype. Because it holds a `Coords` value, the response can never alias the position object. That is what the Java's fresh `new Coords(...)` at the end of `navigate` achieves.
- `HooverService.Navigate` and `RequestValidator.ValidateHooverRequest` take a request whose references and components are all non-null. The NullPointerException that Java raises when the service is called directly with a null field is not modelled: a null room size or start (HooverRequestValidator.java:17, 44), a null patch component (HooverRequestValidator.java:51), or null instructions (HooverService.java:58). `RequestValidator.AcceptedRequestIsInRoom` shows that bean validation guarantees non-null fields on the controller path.
- A null element inside the patch set is not modelled. Each patch is a `CoordsInput`, whose components may be null, but the element itself is always present.
- The patch set holds values, not `Coords` objects, so the model cannot express a patch that is the same object as the start. Nothing is lost by this: if the start object is also in the set, HooverService.java:53-55 removes it before the loop moves anything, so the navigator never changes an object that is still in the set, and the model gives the same result.
- Java `int` arithmetic is not modelled bit for bit. Integers are unbounded. `StepRule` and `RunKeepsBounds` prove that a run starting within 32-bit range stays within it, so no wrap-around can occur.
- Logging, Spring dependency injection, and the Mockito-based controller tests that stub the validator are not modelled.
- The validator checks only the room size and the upper bounds. It has no negative-value check and no malformed-coordinate error. `RequestValidator.NoLowerBoundCheck` records this, and negative values are stopped only by the @Min constraints in `CoordsDto.CoordsViolations`.
